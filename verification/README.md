# thermalright-lcd-control, modelled in Dafny

This project models the decision logic of thermalright-lcd-control, a Python
application that drives the small USB LCD panels of Thermalright CPU coolers.
The modelled core covers:

- how the display's background frames are loaded and cycled: still image,
  GIF, video, image folder and live window capture, with the capture's zoom
  transform and its window search;
- the display configuration records;
- the platform-specific configuration, data and log folders;
- how installed applications are located: the generic application detector,
  its persisted detection cache, and the iStripper integration with its
  installation, content and model-media discovery and its process monitor;
- the GPU vendor detection;
- the Windows helpers: codec survey, Zadig USB driver helper and Task
  Scheduler autostart;
- the environment checker with its report and exit code;
- the RGB565 encoder that the numpy-global-state test describes.

Everything the program asks of the outside world becomes a parameter, a
record or a finite tree, and each operation is a pure function over those
inputs. The outside world here means the file system, the registry, running
processes, subprocess output, windows on the desktop, decoded images and the
clock.

Modules, one per source file, plus shared helpers:

| module | models |
|---|---|
| `Wrappers` | `Option` / `Result` |
| `Scan` | the "first item that answers" loop shared by the registry and folder searches |
| `Readings` | the choice between the code as written and its corrected form |
| `Text`, `Numerals`, `Sorting` | the Python `str` methods, `str(n)` / `f"{n:04x}"`, `list.sort` on strings |
| `Paths`, `PurePath` | `os.path` (`join`, `basename`, `splitext`) and `pathlib` paths as component lists |
| `Images` | a symbolic PIL image with a pixel-provenance function |
| `Config` | `device_controller/display/config.py` |
| `WindowCapture` | `device_controller/display/window_capture.py` |
| `FrameManager` | `device_controller/display/frame_manager.py` |
| `PlatformUtils` | `common/platform_utils.py` |
| `AppDetector` | `common/app_detector.py` |
| `DetectedAppsConfig` | `common/detected_apps_config.py` |
| `IStripperManager` | `integrations/istripper_manager.py` |
| `GpuDetector` | `device_controller/metrics/gpu_detector.py` |
| `CodecDetector` | `utils/codec_detector.py` |
| `ZadigManager` | `utils/zadig_manager.py` |
| `TaskScheduler` | `utils/task_scheduler.py` |
| `SystemChecker` | `diagnostics/system_checker.py` |
| `Rgb565` | the encoder and reference helper in `tests/test_numpy_global_state.py` |

Four places where the code as written evidently misbehaves are listed under
"## Findings". The operations they affect take a `Readings.Reading`
parameter: `AsWritten` follows the code as it stands, and `Corrected` follows
the repaired helper. These operations are `FrameManager.LoadFrames` and
`FrameManager.Load` (collection list and capture zoom),
`IStripperManager.Stages` and `IStripperManager.DetectInstallation` (usual
folders), and `CodecDetector.DetectAllCodecs` (pack fallback). Their
properties are proved for both readings, and lemmas such as
`FrameManager.ReadingsDifferOnlyThere` say where the two differ.

Durations are `real`, so they are exact rationals. The zoom factor is an
integer percentage, and `int(t * s)` becomes `t * pct / 100`. Paths are
`os.path` strings where the source uses `os.path`, and component lists where
it uses `pathlib`. There is one exception: the detected-apps file path is a
`pathlib` path built with `/` (detected_apps_config.py:35 and 39). It is
modelled as an `os.path` string joined with plain names. So pathlib's
normalisation of the separators inside `LOCALAPPDATA` or the data folder is
not modelled.

## Model

| member | source | states |
|---|---|---|
| Config.BackgroundTypeFromValue | src/thermalright_lcd_control/device_controller/display/config.py:9-15 | Looking up a stored value gives back the kind with exactly that value, and every one of the five stored values is found. |
| Config.FiveBackgroundTypes | src/thermalright_lcd_control/device_controller/display/config.py:9-15 | There are exactly five background kinds. Their stored values are pairwise distinct, and each kind's value looks up to that kind. |
| Config.MetricConfig.FormatLabel | src/thermalright_lcd_control/device_controller/display/config.py:40-41 | The rendered label is empty exactly when the label is empty. Otherwise it is the label followed by `": "`, two characters longer. |
| Config.FormatLabelInjective | src/thermalright_lcd_control/device_controller/display/config.py:40-41 | Two metrics that render the same label have the same label text, so the rendering loses nothing. |
| Config.PostInit | src/thermalright_lcd_control/device_controller/display/config.py:80-90 | After `__post_init__` the metrics list is always present. A missing list becomes the empty list, and nothing else in the record changes. |
| Config.PostInitIdempotent | src/thermalright_lcd_control/device_controller/display/config.py:88-90 | Normalising a configuration twice gives the same result as normalising it once. |
| Config.NewDisplayConfig | src/thermalright_lcd_control/device_controller/display/config.py:45-90 | A configuration built from only a path and a kind carries every declared default: 320x240, no rotation, zoom 100 %, 30 fps capture, no title, font, foreground, date or time, opaque foreground and an empty metrics list. |
| Images.ToRgba | src/thermalright_lcd_control/device_controller/display/frame_manager.py:127-128 | Converting to RGBA keeps the size and every pixel, and the result is in RGBA mode. |
| WindowCapture.ScaledSizeOrder | src/thermalright_lcd_control/device_controller/display/window_capture.py:229-230 | The scaled size `int(t * s)` is at least `t` when zooming in, at most `t` when zooming out, and exactly `t` at 1.0, so the crop box and the paste offset are never negative. |
| WindowCapture.ApplyScaling | src/thermalright_lcd_control/device_controller/display/window_capture.py:216-256 | The zoom transform gives a target-sized RGBA image exactly when the scaled size is not zero. At 1.0 the image is only resized. Above 1.0 every output pixel is a centred-crop pixel of the enlarged image. Below 1.0 the shrunk image sits centred on an opaque black canvas. |
| WindowCapture.ZoomIn | src/thermalright_lcd_control/device_controller/display/window_capture.py:235-241 | The crop box centred in the enlarged image lies inside it. Output pixel (x, y) is the enlarged image's pixel at (x + left, y + top). |
| WindowCapture.ZoomOut | src/thermalright_lcd_control/device_controller/display/window_capture.py:242-248 | The paste box centred in the canvas lies inside it. Pixels inside the box come from the shrunk image, and every pixel outside it is opaque black. |
| WindowCapture.ZoomInExample | src/thermalright_lcd_control/device_controller/display/window_capture.py:229-241 | A 320x240 target at 2.0x is enlarged to 640x480 and cropped from offset (160, 120). |
| WindowCapture.ZoomOutExample | src/thermalright_lcd_control/device_controller/display/window_capture.py:242-248 | A 320x240 target at 0.5x is shrunk to 160x120 and pasted at (80, 60) on black. |
| WindowCapture.FirstGeometryAppend | src/thermalright_lcd_control/device_controller/display/window_capture.py:176-179 | Taking the first readable geometry of two concatenated window lists looks in the first list, then in the second. |
| WindowCapture.ReachedAllMatch | src/thermalright_lcd_control/device_controller/display/window_capture.py:167-183 | Every window the reference enumeration yields has a readable name that contains the title, ignoring case. |
| WindowCapture.ReachedFromAllMatch | src/thermalright_lcd_control/device_controller/display/window_capture.py:174-179 | Every window the reference enumeration yields for the children from position i onwards matches the title. |
| WindowCapture.SearchWindows | src/thermalright_lcd_control/device_controller/display/window_capture.py:167-183 | The recursive X11 search. A window whose name cannot be read answers nothing, a matching window answers with its geometry without searching its children, and otherwise its children are searched. Its meaning is stated by `WindowCapture.SearchIsFirstMatch` and `WindowCapture.MatchingRootAnswers`. |
| WindowCapture.SearchChildren | src/thermalright_lcd_control/device_controller/display/window_capture.py:175-179 | The loop over children from child i: the first child whose search answers gives the answer, and the end of the list gives nothing. Its meaning is stated by `WindowCapture.SearchChildrenIsFirstMatch`. |
| WindowCapture.SearchIsFirstMatch | src/thermalright_lcd_control/device_controller/display/window_capture.py:167-183 | The recursive X11 search answers with the first readable geometry among the matching windows of the pre-order enumeration. That enumeration does not descend below a match, and it skips windows whose name or tree cannot be read. |
| WindowCapture.SearchChildrenIsFirstMatch | src/thermalright_lcd_control/device_controller/display/window_capture.py:176-179 | The loop over the children answers with the first readable geometry among the matches reachable from child i onwards. |
| WindowCapture.MatchingRootAnswers | src/thermalright_lcd_control/device_controller/display/window_capture.py:170-172 | A window whose name matches answers with its own geometry, or with nothing if that cannot be read. Its children are never searched. |
| WindowCapture.NewCapturer | src/thermalright_lcd_control/device_controller/display/window_capture.py:31-98 | Creating a capturer fails with division by zero exactly when fps is 0, because the interval is computed first. Otherwise it succeeds exactly when Windows has mss or pygetwindow, or Linux has python-xlib and a display that opens; any other platform is unsupported. On success the interval times fps is 1, the backend is xlib on Linux and otherwise mss before pygetwindow, and the title, target size and zoom are kept. |
| WindowCapture.FindWindow | src/thermalright_lcd_control/device_controller/display/window_capture.py:100-190 | On Windows the first window listed for the title is the answer. On Linux the answer is the first readable geometry among the matches of the reference enumeration from the root window. An unknown backend finds nothing. |
| WindowCapture.CaptureFrame | src/thermalright_lcd_control/device_controller/display/window_capture.py:192-214 | No window found, or no grab, gives no frame. A grabbed image is returned after the zoom transform, at the target size. |
| FrameManager.IsVideoFile | src/thermalright_lcd_control/device_controller/display/frame_manager.py:76-82 | A path counts as a video exactly when it is non-empty and its lower-cased `splitext` extension is one of the eight supported formats. |
| FrameManager.VideoFileByName | src/thermalright_lcd_control/device_controller/display/frame_manager.py:76-82 | For a file `stem + e` in any directory, being a video depends only on `e`, ignoring case. |
| FrameManager.ClipExtension | src/thermalright_lcd_control/device_controller/display/frame_manager.py:81 | The extension of `clip` plus a one-dot suffix is that suffix. |
| FrameManager.UpperCaseVideoExample | src/thermalright_lcd_control/device_controller/display/frame_manager.py:81-82 | `clip.MP4` is a video: the extension is lower-cased before the lookup. |
| FrameManager.LowerMp4 | src/thermalright_lcd_control/device_controller/display/frame_manager.py:81 | `.MP4` lower-cases to the supported `.mp4`. |
| FrameManager.GifIsNotVideoExample | src/thermalright_lcd_control/device_controller/display/frame_manager.py:81-102 | `clip.gif` is not a video, so the VIDEO kind falls back to a still image for it. |
| FrameManager.LowerGif | src/thermalright_lcd_control/device_controller/display/frame_manager.py:38 | `.gif` is not among the supported video formats. |
| FrameManager.HiddenNameExtension | src/thermalright_lcd_control/device_controller/display/frame_manager.py:81 | `splitext` gives no extension to a file name that starts with its only dot, such as `.mp4`. |
| FrameManager.HiddenFileIsNotVideo | src/thermalright_lcd_control/device_controller/display/frame_manager.py:76-82 | A file named only by an extension, such as `.mp4`, is never a video, whichever extension it is. |
| FrameManager.GifDuration | src/thermalright_lcd_control/device_controller/display/frame_manager.py:317-322 | A frame's duration in seconds is its metadata's milliseconds divided by 1000. Without metadata it is 0.1 s, and it is positive whenever the metadata is. |
| FrameManager.Fit | src/thermalright_lcd_control/device_controller/display/frame_manager.py:125-129 | A resized frame has the output size and is RGBA. |
| FrameManager.BlackFrame | src/thermalright_lcd_control/device_controller/display/frame_manager.py:265-267 | The capture placeholder is output-sized, RGBA and opaque black at every pixel. |
| FrameManager.LoadStatic | src/thermalright_lcd_control/device_controller/display/frame_manager.py:116-123 | A missing file is exactly the FileNotFound error, and an undecodable one exactly the open error. Otherwise the single frame is the fitted decoded image, shown for the 2 s default. |
| FrameManager.LoadGif | src/thermalright_lcd_control/device_controller/display/frame_manager.py:131-154 | Every frame of the animation is fitted and kept in order with its own duration. The first frame's duration becomes the current one, and the missing-file and open errors happen exactly when the file is missing or undecodable. |
| FrameManager.VideoFrameCount | src/thermalright_lcd_control/device_controller/display/frame_manager.py:186-193 | The video keeps the smaller of the reported frame count and the frames actually readable, and none for a non-positive count. |
| FrameManager.LoadVideo | src/thermalright_lcd_control/device_controller/display/frame_manager.py:156-205 | The kept frames are the fitted readable frames, in order. The frame duration is 1/fps, or 1/30 when fps is not positive. A missing file and an unopenable video are exactly the two errors. |
| FrameManager.MatchingNames | src/thermalright_lcd_control/device_controller/display/frame_manager.py:222-223 | One glob's result holds exactly the listed names that match `*` plus the extension, with case folded where the file system folds it. |
| FrameManager.GlobbedNames | src/thermalright_lcd_control/device_controller/display/frame_manager.py:218-223 | The twelve globs together yield exactly the names that match one of the image extensions, in either case. |
| FrameManager.InDir | src/thermalright_lcd_control/device_controller/display/frame_manager.py:222 | Each globbed name becomes `os.path.join(dir, name)`, position by position. |
| FrameManager.CollectionFilesAsWritten | src/thermalright_lcd_control/device_controller/display/frame_manager.py:218-225 | The file list as written is sorted and is a permutation of everything all twelve globs return, duplicates included. |
| FrameManager.NoMatchBySecondLast | src/thermalright_lcd_control/device_controller/display/frame_manager.py:218 | A name whose second-to-last character differs, ignoring case, from the extension's cannot match that extension. |
| FrameManager.PhotoMatchesOnlyJpg | src/thermalright_lcd_control/device_controller/display/frame_manager.py:218 | `photo.jpg` matches none of the five extensions after `.jpg`. |
| FrameManager.SingleNameMatches | src/thermalright_lcd_control/device_controller/display/frame_manager.py:222-223 | A one-entry listing that matches a pattern ignoring case is returned whole. |
| FrameManager.MatchingNone | src/thermalright_lcd_control/device_controller/display/frame_manager.py:222-223 | A glob that no listed name matches returns nothing. |
| FrameManager.GlobbedNone | src/thermalright_lcd_control/device_controller/display/frame_manager.py:221-223 | Names that match no image extension are returned by none of the globs. |
| FrameManager.PhotoMatchesJpg | src/thermalright_lcd_control/device_controller/display/frame_manager.py:222-223 | On a case-insensitive file system `photo.jpg` matches both `*.jpg` and `*.JPG`. |
| FrameManager.PhotoGlobbedTwice | src/thermalright_lcd_control/device_controller/display/frame_manager.py:221-223 | On Windows the twelve globs return `photo.jpg` twice. |
| FrameManager.SortTwins | src/thermalright_lcd_control/device_controller/display/frame_manager.py:225 | Sorting two equal paths keeps both. |
| FrameManager.PicsPhotoPath | src/thermalright_lcd_control/device_controller/display/frame_manager.py:222 | Joining `C:\pics` with the twice-globbed name gives the same full path twice. |
| FrameManager.CollectionDuplicatesOnWindows | src/thermalright_lcd_control/device_controller/display/frame_manager.py:218-225 | On Windows a folder holding only `photo.jpg` yields that file twice, so the collection shows it as two frames. |
| FrameManager.CollectionFiles | src/thermalright_lcd_control/device_controller/display/frame_manager.py:218-225 | The corrected file list is sorted, free of duplicates, and holds exactly the files the as-written list holds. |
| FrameManager.LoadCollectionAsWritten | src/thermalright_lcd_control/device_controller/display/frame_manager.py:207-235 | The collection load as written: the same two listing errors, and otherwise one fitted frame per entry of the as-written list. A file that two case-variant globs match is loaded twice. |
| FrameManager.DecodeAll | src/thermalright_lcd_control/device_controller/display/frame_manager.py:230-233 | Loading the files succeeds exactly when every file decodes, and then gives one frame per file. A failure names a listed file that does not decode. |
| FrameManager.LoadFiles | src/thermalright_lcd_control/device_controller/display/frame_manager.py:227-234 | An empty file list is exactly the no-images error. Otherwise there is one fitted frame per file, in list order, shown for the default duration, or the error names a file that could not be opened. |
| FrameManager.LoadCollection | src/thermalright_lcd_control/device_controller/display/frame_manager.py:207-235 | The corrected collection load: a path that is not a directory and a folder with no images are exactly the two listing errors. A loaded collection holds one fitted frame per matching file, each file once, in sorted order. It is the `Corrected` reading of the loader; the code as written is LoadCollectionAsWritten. |
| FrameManager.LoadWindowCaptureWith | src/thermalright_lcd_control/device_controller/display/frame_manager.py:237-269 | Without the capture module the load fails with that error, and without a non-empty window title it fails with the title error. Otherwise the frames are the single black placeholder, and the capturer targets the title at the output size with the given zoom. The frame duration is 1/capture_fps. |
| FrameManager.LoadWindowCaptureAsWritten | src/thermalright_lcd_control/device_controller/display/frame_manager.py:255-260 | The capture built as written always has zoom 100 %, because no scale factor is passed. |
| FrameManager.CaptureIgnoresConfiguredScale | src/thermalright_lcd_control/device_controller/display/frame_manager.py:255-260 | Any configured zoom other than 1.0 is lost: the capture never uses it. |
| FrameManager.LoadWindowCapture | src/thermalright_lcd_control/device_controller/display/frame_manager.py:237-269 | The corrected load passes the configured zoom to the capture and succeeds in exactly the same cases as the as-written one. |
| FrameManager.LoadFrames | src/thermalright_lcd_control/device_controller/display/frame_manager.py:84-114 | Under either reading, only the window-capture kind creates a capturer. A capture loaded as written zooms 100 %, and a corrected one uses the configured zoom. |
| FrameManager.ReadingsDifferOnlyThere | src/thermalright_lcd_control/device_controller/display/frame_manager.py:84-114 | The two readings load every kind but a collection and a capture identically. A capture succeeds under one exactly when it succeeds under the other. |
| FrameManager.CollectionReadingsAgree | src/thermalright_lcd_control/device_controller/display/frame_manager.py:207-235 | A collection loads under the code as written exactly when it loads with each file once, because both lists hold the same files. |
| FrameManager.DecodeAllAgree | src/thermalright_lcd_control/device_controller/display/frame_manager.py:227-234 | Decoding two lists that hold the same paths succeeds for both or for neither. |
| FrameManager.VideoFallsBackToStill | src/thermalright_lcd_control/device_controller/display/frame_manager.py:91-102 | Under either reading, without OpenCV or for a path that is not a supported video, the VIDEO kind loads exactly as a still image. It fails exactly when the file is missing or undecodable. |
| FrameManager.LoadedShape | src/thermalright_lcd_control/device_controller/display/frame_manager.py:84-114 | Under either reading, every successful load gives output-sized frames, and at least one of them for every kind but video. A GIF has one duration per frame, starting at the first. A capture has the black placeholder and an output-sized capturer. |
| FrameManager.Load | src/thermalright_lcd_control/device_controller/display/frame_manager.py:42-74 | With metrics configured, a failure to start the collectors is the construction's error. Otherwise construction fails exactly when the background load fails, with the same error. A built manager starts at frame 0 at the current clock with the loaded frames. It is in capture mode exactly for the capture kind, and runs metrics exactly when metrics are configured. Both readings are covered. |
| FrameManager.Start | src/thermalright_lcd_control/device_controller/display/frame_manager.py:42-74 | Whatever the background load gave, a metrics start-up failure wins when metrics are configured. Otherwise a load failure is passed on as the construction's error, and a successful load gives the fresh manager over the loaded frames. |
| FrameManager.LoadValid | src/thermalright_lcd_control/device_controller/display/frame_manager.py:42-74 | Under either reading, a freshly built manager satisfies the polling invariant, except a video that yielded no frame. A GIF starts with its first frame's duration. |
| FrameManager.GifLoadPositive | src/thermalright_lcd_control/device_controller/display/frame_manager.py:145-153 | When every GIF frame's metadata duration is positive or absent, every recorded duration and the current one are positive. |
| FrameManager.VideoLoadPositive | src/thermalright_lcd_control/device_controller/display/frame_manager.py:188 | A loaded video's frame duration is positive. |
| FrameManager.CaptureLoadPositive | src/thermalright_lcd_control/device_controller/display/frame_manager.py:263 | A capture with positive fps has a positive frame duration, whatever zoom it is given. |
| FrameManager.LoadPositiveDurations | src/thermalright_lcd_control/device_controller/display/frame_manager.py:84-114 | Under those conditions on GIF metadata and fps, every loaded manager has only positive durations, under either reading. |
| FrameManager.Poll | src/thermalright_lcd_control/device_controller/display/frame_manager.py:324-375 | A poll keeps the invariant and changes only the index, start time and duration. The start time moves to now exactly when the frame is due. In capture mode the answer is a fresh capture, or the black placeholder, and the index is unchanged. Otherwise a due poll advances the index by one round the frames, the answer is the frame at the new index, and a GIF takes that frame's own duration. |
| FrameManager.CaptureNotReplayed | src/thermalright_lcd_control/device_controller/display/frame_manager.py:334-354 | In capture mode an earlier poll has no influence on what a later poll shows: no earlier capture is stored or replayed. A failed capture shows the black placeholder. |
| FrameManager.Cleanup | src/thermalright_lcd_control/device_controller/display/frame_manager.py:391-403 | Cleanup stops metrics and drops the capturer, changes nothing else, and keeps the polling invariant. |
| FrameManager.PollAfterCleanupIsBlack | src/thermalright_lcd_control/device_controller/display/frame_manager.py:334-375 | After cleanup a capture-mode manager falls through to the frame list and shows the black placeholder. |
| FrameManager.RunPolls | src/thermalright_lcd_control/device_controller/display/frame_manager.py:324-375 | Any run of polls keeps the invariant, the frames, the kind and the capture. |
| FrameManager.AdvanceStep | src/thermalright_lcd_control/device_controller/display/frame_manager.py:363 | One wrap-around advance is one step of the rotation. |
| FrameManager.DuePollsAdvance | src/thermalright_lcd_control/device_controller/display/frame_manager.py:359-363 | Up to one full loop, k due polls move the index k places round the frames. |
| FrameManager.FullLoopReturns | src/thermalright_lcd_control/device_controller/display/frame_manager.py:359-363 | As many due polls as there are frames bring the index back where it started, so playback loops seamlessly. |
| FrameManager.EarlyPollsHold | src/thermalright_lcd_control/device_controller/display/frame_manager.py:359-375 | Polls that all come before the frame is due change neither the index nor the start time. |
| FrameManager.GifDurationFollowsFrame | src/thermalright_lcd_control/device_controller/display/frame_manager.py:372-373 | In GIF mode, after any run of polls, the current duration is the shown frame's own duration. |
| PlatformUtils.GetPlatform | src/thermalright_lcd_control/common/platform_utils.py:19-35 | The platform is Windows, Linux or macOS exactly when the lower-cased system name is `windows`, `linux` or `darwin`, and Unknown for every other name. |
| PlatformUtils.AtMostOnePlatform | src/thermalright_lcd_control/common/platform_utils.py:38-50 | At most one of `is_windows`, `is_linux` and `is_macos` holds. None holds exactly on an unknown platform. |
| PlatformUtils.JoinAll | src/thermalright_lcd_control/common/platform_utils.py:66-70 | `os.path.join` of no component is the base. Otherwise the result ends with the last component. For non-empty components without separators, it is the base (followed by one separator unless the base is empty or already ends with one) and then the components separated by single separators. |
| PlatformUtils.GetConfigDir | src/thermalright_lcd_control/common/platform_utils.py:53-72 | The configuration folder is `.` exactly on an unknown platform. On Windows it is `APPDATA` (treated as empty when unset), a separator if needed, then the application folder. With `APPDATA` unset or empty it is the bare, relative application folder. On Linux it is the home folder then `.config/thermalright-lcd-control`. On macOS it is the home folder then `Library/Application Support/thermalright-lcd-control`. |
| PlatformUtils.GetDataDir | src/thermalright_lcd_control/common/platform_utils.py:75-94 | The data folder is `.` exactly on an unknown platform. On Windows it is `LOCALAPPDATA` (or the bare application folder when that is unset or empty) with the application folder appended. On Linux it is the home folder then `.local/share/thermalright-lcd-control`. On macOS it is the home folder then `Library/Application Support/thermalright-lcd-control`. |
| PlatformUtils.GetLogDir | src/thermalright_lcd_control/common/platform_utils.py:97-123 | The log folder is `.` exactly on an unknown platform. On Windows it is `LOCALAPPDATA`, the application folder, then `logs`. On Linux it is `/var/log` exactly for a root process, and `.local/share/thermalright-lcd-control/logs` under the home folder for everyone else. On macOS it is `Library/Logs/thermalright-lcd-control` under the home folder. |
| PlatformUtils.LogsUnderData | src/thermalright_lcd_control/common/platform_utils.py:97-123 | On Windows, and on Linux for a process that is not root, the log folder is the data folder's `logs` subfolder. |
| PlatformUtils.JoinAllSnoc | src/thermalright_lcd_control/common/platform_utils.py:66-70 | Joining one more plain component adds exactly one separator and that component. |
| PlatformUtils.MacOsConfigIsData | src/thermalright_lcd_control/common/platform_utils.py:67-92 | On macOS configuration and data share one folder. |
| DetectedAppsConfig.ConfigFilePath | src/thermalright_lcd_control/common/detected_apps_config.py:28-39 | The JSON file sits under `LOCALAPPDATA` only on Windows with that variable non-empty, and in the data folder otherwise. Either way its basename is `detected_apps.json`. |
| DetectedAppsConfig.Revalidate | src/thermalright_lcd_control/common/detected_apps_config.py:52-61 | A recorded path survives loading exactly when it is missing from the file, empty, or still on disk. A surviving path is unchanged. |
| DetectedAppsConfig.Load | src/thermalright_lcd_control/common/detected_apps_config.py:20-65 | A missing, unreadable or invalid file leaves every value unset. A parsed file supplies all three values, with the two paths revalidated. |
| DetectedAppsConfig.LoadedPathsExisted | src/thermalright_lcd_control/common/detected_apps_config.py:56-61 | Every non-empty path that survives loading was on disk at load time. |
| DetectedAppsConfig.GetPath | src/thermalright_lcd_control/common/detected_apps_config.py:67-81 | A getter returns the recorded path exactly when one is recorded and still exists. |
| DetectedAppsConfig.AllDetectedApps | src/thermalright_lcd_control/common/detected_apps_config.py:83-93 | The dictionary has exactly the keys `istripper` and `vlc`, each mapped to its getter's answer. |
| DetectedAppsConfig.GetInstance | src/thermalright_lcd_control/common/detected_apps_config.py:96-110 | The singleton accessor returns the stored instance if there is one, and otherwise loads a new one and stores it. |
| DetectedAppsConfig.SameInstance | src/thermalright_lcd_control/common/detected_apps_config.py:100-110 | A later call returns the first instance, whatever the file or the disk looks like by then. |
| Paths.JoinPath | src/thermalright_lcd_control/device_controller/display/frame_manager.py:222 | `os.path.join` keeps the directory as a prefix and the name as a suffix. An empty directory gives the name alone. A directory that already ends with a separator is followed directly by the name. Otherwise the platform's separator is inserted between them. |
| Paths.BasenameOfJoinPath | src/thermalright_lcd_control/common/detected_apps_config.py:35-39 | A separator-free name joined onto any folder is the basename of the result. |
| Paths.Extension | src/thermalright_lcd_control/device_controller/display/frame_manager.py:81 | `splitext` gives a suffix of the path that is empty or one dot followed by dot- and separator-free text. |
| Paths.ExtensionOfName | src/thermalright_lcd_control/device_controller/display/frame_manager.py:81 | For a file `stem + e` in any folder, where the stem is not all dots and `e` is one dot plus dot-free text, the extension is `e`. |
| Sorting.Sort | src/thermalright_lcd_control/device_controller/display/frame_manager.py:225 | `list.sort` on strings gives a permutation of the input in ascending order. |
| Sorting.LexLeTotal | src/thermalright_lcd_control/device_controller/display/frame_manager.py:225 | Python's string order compares every pair. |
| Sorting.LexLeAntisymmetric | src/thermalright_lcd_control/device_controller/display/frame_manager.py:225 | Two strings ordered both ways are equal, so the sorted order is unique. |
| Text.Lower | src/thermalright_lcd_control/device_controller/display/frame_manager.py:81 | `str.lower` folds each character in place and keeps the length. |
| Text.Strip | src/thermalright_lcd_control/device_controller/metrics/gpu_detector.py:74-77 | `str.strip` gives a middle slice with only whitespace cut off either side, and the result neither starts nor ends with whitespace. Whitespace is what `str.isspace` accepts, the Unicode spaces and line and paragraph separators included. |
| Text.SplitJoin | src/thermalright_lcd_control/device_controller/metrics/gpu_detector.py:75 | Splitting text on a character and joining it back gives the text. |
| Text.JoinSplit | src/thermalright_lcd_control/device_controller/metrics/gpu_detector.py:75 | Joining separator-free pieces and splitting again gives the pieces. |
| Numerals.Hex4 | src/thermalright_lcd_control/utils/zadig_manager.py:242-249 | `f"{n:04x}"` for a 16-bit id is exactly four lower-case hex digits that read back as `n`. |
| Numerals.Decimal | src/thermalright_lcd_control/diagnostics/system_checker.py:85 | `str(n)` gives decimal digits that read back as `n`. There is no leading zero: the text starts with `0` exactly when it is `0`, which happens exactly for `n` = 0. |
| AppDetector.AppExecutables | src/thermalright_lcd_control/common/app_detector.py:24-27 | The executable list is empty exactly for a name other than `istripper` and `vlc`. |
| AppDetector.CommonSubdirs | src/thermalright_lcd_control/common/app_detector.py:30-33 | The usual sub-folder list is empty exactly for a name other than the two known applications. |
| AppDetector.AllDrives | src/thermalright_lcd_control/common/app_detector.py:40-64 | A letter's root is kept exactly when it exists and is a fixed drive, or when its type cannot be queried. Every kept entry is the bare `X:\` root of one of the letters. |
| AppDetector.AllDrivesAppend | src/thermalright_lcd_control/common/app_detector.py:40-64 | The drives are reported letter by letter: the drives of a longer string of letters are those of its first part followed by those of the rest. One letter gives its root exactly when the drive is kept. |
| AppDetector.DriveFolders | src/thermalright_lcd_control/common/app_detector.py:80-87 | Each drive contributes exactly four folders in order: Program Files, Program Files (x86), Games and the drive root itself. |
| AppDetector.ProgramFilesCandidates | src/thermalright_lcd_control/common/app_detector.py:76-104 | An all-drive search uses the four folders of every kept drive. Otherwise the set variables among `ProgramFiles` and `ProgramFiles(x86)` are used, in that order. The two `C:` folders are used only when neither is set. |
| AppDetector.FallbackParsed | src/thermalright_lcd_control/common/app_detector.py:101-104 | `Path` parses the fallback literal `C:\Program Files` as a rooted `C:\` path with the one component `Program Files`. |
| AppDetector.FallbackX86Parsed | src/thermalright_lcd_control/common/app_detector.py:101-104 | `Path` parses the fallback literal `C:\Program Files (x86)` as a rooted `C:\` path with the one component `Program Files (x86)`. |
| AppDetector.Existing | src/thermalright_lcd_control/common/app_detector.py:106 | The filter keeps exactly the listed folders that exist. Their order is stated by `AppDetector.ExistingAppend`. |
| AppDetector.ExistingAppend | src/thermalright_lcd_control/common/app_detector.py:106 | The comprehension keeps the candidates' order: the existing folders of an earlier stretch of candidates come before those of a later one, and one candidate is kept exactly when it exists. |
| AppDetector.ProgramFilesDirs | src/thermalright_lcd_control/common/app_detector.py:66-106 | The folders searched are exactly the candidates that exist. Their order is stated by `AppDetector.ProgramFilesDirsAppend`. |
| AppDetector.ProgramFilesDirsAppend | src/thermalright_lcd_control/common/app_detector.py:66-106 | The base folders are reported in candidate order: splitting the candidate list in two splits the result at the same place. |
| AppDetector.FallbackOnlyWhenUnset | src/thermalright_lcd_control/common/app_detector.py:89-104 | With either variable set, every folder searched is one of the variables' values, so no hard-coded `C:` folder is searched. |
| AppDetector.FirstExe | src/thermalright_lcd_control/common/app_detector.py:127-130 | Nothing is found exactly when no listed name is an existing file in the folder. Otherwise the answer is one of those names, directly inside the folder, and an existing file. |
| AppDetector.Search | src/thermalright_lcd_control/common/app_detector.py:121-143 | Past the depth limit nothing is found. Anything found is an existing executable with a listed name, at most `max_depth - depth` levels below the folder searched. |
| AppDetector.SearchChildren | src/thermalright_lcd_control/common/app_detector.py:133-138 | Anything the loop over subfolders finds lies within the remaining depth below the parent. |
| AppDetector.SearchDirectory | src/thermalright_lcd_control/common/app_detector.py:108-145 | `search_directory_recursive` finds only listed executables at most three levels below the base. |
| AppDetector.Visited | src/thermalright_lcd_control/common/app_detector.py:121-143 | The reference enumeration of visited folders starts with the folder itself. It is that folder alone at the depth limit or when the folder cannot be listed. |
| AppDetector.FirstHit | src/thermalright_lcd_control/common/app_detector.py:127-138 | The first-hit reference finds nothing exactly when no folder in the list holds a listed executable. |
| AppDetector.FirstHitAppend | src/thermalright_lcd_control/common/app_detector.py:134-138 | The first hit in two concatenated folder lists is the first list's hit if there is one, and otherwise the second list's. |
| AppDetector.SearchIsFirstHit | src/thermalright_lcd_control/common/app_detector.py:121-143 | The recursive search returns the first executable of the first folder in pre-order, with each folder's names tried before its subfolders. |
| AppDetector.ListedStep | src/thermalright_lcd_control/common/app_detector.py:127-138 | The same holds in one step for a folder that can be listed and is above the depth limit. |
| AppDetector.SearchChildrenIsFirstHit | src/thermalright_lcd_control/common/app_detector.py:133-138 | The loop over subfolders returns the first hit of the pre-order enumeration of those subfolders. |
| AppDetector.VisitedWithinDepth | src/thermalright_lcd_control/common/app_detector.py:121-136 | Every folder visited lies inside the base and at most `max_depth - depth` levels below it, so no executable is looked for deeper. |
| AppDetector.VisitedChildrenWithinDepth | src/thermalright_lcd_control/common/app_detector.py:133-136 | Every folder the subfolder loop visits lies strictly below the parent and within the remaining depth. |
| AppDetector.InaccessibleSkipped | src/thermalright_lcd_control/common/app_detector.py:139-141 | A subfolder that cannot be listed and holds no executable is skipped. The search goes on with the next sibling instead of stopping. |
| AppDetector.SubkeyHit | src/thermalright_lcd_control/common/app_detector.py:180-193 | A registry subkey yields an executable exactly when all of these hold: its lower-cased name contains the application name, it has a non-empty install location, that location exists, and one of the application's names exists inside it. The executable it yields is the first such name. |
| AppDetector.FirstExisting | src/thermalright_lcd_control/common/app_detector.py:189-193 | The registry path returns the first listed name that exists inside the install location, without checking that it is a file. No earlier name exists there. There is no result exactly when no listed name exists. |
| AppDetector.FirstSubkeyHit | src/thermalright_lcd_control/common/app_detector.py:173-197 | The subkeys of one `Uninstall` key are tried in enumeration order. The result is the hit of the first subkey that has one, and there is none exactly when every subkey misses. |
| AppDetector.RootHit | src/thermalright_lcd_control/common/app_detector.py:169-199 | A key that cannot be opened contributes nothing. An opened key answers with the first hit among its subkeys. Any hit is an existing executable with one of the application's names. |
| AppDetector.RegistryScan | src/thermalright_lcd_control/common/app_detector.py:169-201 | For an already lower-cased name, the three `Uninstall` keys are tried in order. The result is the first key's hit, and there is none exactly when every key misses. An unknown name finds nothing, and any hit is an existing executable with one of the name's executables. |
| AppDetector.CheckRegistry | src/thermalright_lcd_control/common/app_detector.py:147-201 | The name is lower-cased first, and the answer is the ordered scan of the three `Uninstall` keys for the lower-cased name, so it is the first key's hit and there is none exactly when every key misses. An unknown application has no registry hit, and any hit is an existing executable with one of the application's names. |
| AppDetector.Drive | src/thermalright_lcd_control/common/app_detector.py:243 | A path's drive is empty or a two-character `X:` prefix of its anchor. |
| AppDetector.FirstInSubdirs | src/thermalright_lcd_control/common/app_detector.py:233-239 | The usual sub-folders are tried in order. The result is the first executable of the first existing sub-folder that has one, and there is none exactly when no existing sub-folder has one. |
| AppDetector.SubdirHit | src/thermalright_lcd_control/common/app_detector.py:233-239 | A usual sub-folder that does not exist gives nothing. One that exists gives its first existing executable in list order. |
| AppDetector.SearchBase | src/thermalright_lcd_control/common/app_detector.py:231-246 | The usual sub-folders are checked before the recursive search and win when they hit. When they miss, the base is walked exactly when all drives are not being searched or the base is on `C:`. Otherwise nothing is found. |
| AppDetector.SearchBases | src/thermalright_lcd_control/common/app_detector.py:231-248 | The base folders are tried in order. The result is that of the first base that answers, and there is none exactly when no base answers. |
| AppDetector.SearchBasesAt | src/thermalright_lcd_control/common/app_detector.py:231-248 | When base folder i answers and every earlier base found nothing, the loop over base folders returns exactly base i's answer. |
| AppDetector.FindApplication | src/thermalright_lcd_control/common/app_detector.py:203-248 | A registry hit is returned as it is, and an unknown name finds nothing. After a registry miss, a known application gets exactly what the search of the existing Program Files folders answers, with its usual sub-folders and executable names. |
| AppDetector.FindApplicationWalks | src/thermalright_lcd_control/common/app_detector.py:203-248 | After a registry miss, suppose no earlier base answers, the usual sub-folders of a base hold nothing, and the base may be walked. Then a known application gets the first executable of that base's pre-order walk. |
| AppDetector.DetectAllApplications | src/thermalright_lcd_control/common/app_detector.py:250-267 | The result has exactly the keys `istripper` and `vlc`. Only iStripper may search all drives. |
| AppDetector.VlcIgnoresAllDrives | src/thermalright_lcd_control/common/app_detector.py:264 | Asking for an all-drive search never changes the VLC entry. |
| AppDetector.DetectApplications | src/thermalright_lcd_control/common/app_detector.py:270-287 | Off Windows the result is empty. On Windows it has the two keys, each path converted to its string and each missing entry kept missing. |
| AppDetector.FindIStripperPath | src/thermalright_lcd_control/common/app_detector.py:290-298 | The answer is the string of the iStripper executable a default detection finds, and nothing when none is found or off Windows. |
| PurePath.PathOf | src/thermalright_lcd_control/common/app_detector.py:92-97 | `PureWindowsPath` of a string splits it into an anchor and clean components: no empty or `.` parts, and no separators. |
| PurePath.Str | src/thermalright_lcd_control/common/app_detector.py:287 | `str(p)` is the anchor followed by the components joined with `\`, or `.` for an empty relative path. |
| PurePath.StrRoundTrip | src/thermalright_lcd_control/common/app_detector.py:287 | Parsing the printed form of a well-formed path gives that path back. |
| PurePath.ComponentsOfJoin | src/thermalright_lcd_control/common/app_detector.py:32 | A relative string of clean parts joined with `\` splits back into those parts. |
| PurePath.ComponentsOfName | src/thermalright_lcd_control/common/app_detector.py:128 | A single clean name is one component. |
| PurePath.Join1 | src/thermalright_lcd_control/common/app_detector.py:234 | `p / "a\b"` keeps the anchor and extends the components. |
| PurePath.Child | src/thermalright_lcd_control/common/app_detector.py:237 | `p / name` for a clean name appends exactly that component. |
| PurePath.Name | src/thermalright_lcd_control/integrations/istripper_manager.py:469 | `p.name` is the last component, or empty for a bare anchor. |
| PurePath.Parent | src/thermalright_lcd_control/integrations/istripper_manager.py:300 | `p.parent` keeps the anchor, and appending the name back gives `p`. A bare anchor is its own parent. |
| PurePath.Suffix | src/thermalright_lcd_control/integrations/istripper_manager.py:465 | `p.suffix` is empty or a proper suffix of the name: one dot followed by at least one dot-free character. |
| IStripperManager.FirstExisting | src/thermalright_lcd_control/integrations/istripper_manager.py:114-119 | A folder yields nothing exactly when neither `iStripper.exe` nor `vghd.exe` exists in it. `iStripper.exe` wins when both exist, and the executable's name is recorded with the path. |
| IStripperManager.DetectFromRegistry | src/thermalright_lcd_control/integrations/istripper_manager.py:93-132 | Off Windows nothing is found. On Windows the three keys are tried in order. The result is the first key's hit, and there is none exactly when no key yields an executable. |
| IStripperManager.KeyInstall | src/thermalright_lcd_control/integrations/istripper_manager.py:108-119 | A key that opened and has an `InstallPath` yields that folder's first executable, `iStripper.exe` before `vghd.exe`. Any other key yields nothing. |
| IStripperManager.WindowsCandidates | src/thermalright_lcd_control/integrations/istripper_manager.py:140-155 | There are exactly 27 Windows candidates, nine per drive, each anchored at its drive. |
| IStripperManager.CandidateOrder | src/thermalright_lcd_control/integrations/istripper_manager.py:152-155 | Candidate `9d + 3b + a` is drive d, base folder b and application folder a, so the loops nest drive, then base, then application folder. |
| IStripperManager.WineCandidates | src/thermalright_lcd_control/integrations/istripper_manager.py:156-162 | Off Windows the two Wine folders are searched, both under the home folder and named `iStripper`. |
| IStripperManager.CommonCandidatesAsWritten | src/thermalright_lcd_control/integrations/istripper_manager.py:138-162 | As written, every Windows candidate is drive-relative (`C:Program Files\...`) and never rooted, because `Path('C:')` has no root. |
| IStripperManager.CommonCandidates | src/thermalright_lcd_control/integrations/istripper_manager.py:138-162 | The corrected Windows candidates are rooted at `X:\` of their drive, in the same order. |
| IStripperManager.FirstRootedCandidate | src/thermalright_lcd_control/integrations/istripper_manager.py:140-155 | The first corrected candidate is `C:\Program Files\iStripper`. |
| IStripperManager.TwoNames | src/thermalright_lcd_control/integrations/istripper_manager.py:155 | `Path(anchor) / a / b` for clean names has exactly the components a and b. |
| IStripperManager.FolderHit | src/thermalright_lcd_control/integrations/istripper_manager.py:164-174 | One candidate folder gives nothing when it does not exist, and otherwise the executable found in it. |
| IStripperManager.FirstInFolders | src/thermalright_lcd_control/integrations/istripper_manager.py:165-177 | The candidate folders are tried in order. The answer is the executable of the first candidate folder that exists and holds one, and every earlier candidate gave nothing. There is no answer exactly when no existing candidate holds an executable. |
| IStripperManager.CommonLocationsMissRootedInstall | src/thermalright_lcd_control/integrations/istripper_manager.py:140-177 | On a disk whose only install is `C:\Program Files\iStripper\iStripper.exe`, the as-written search finds nothing and the corrected one finds it. |
| IStripperManager.DetectFromFullSearch | src/thermalright_lcd_control/integrations/istripper_manager.py:179-197 | The full search succeeds exactly when the application detector reports a non-empty iStripper path. That path is recorded, and the executable name is `vghd.exe` exactly when the path text contains `vghd.exe`, else `iStripper.exe`. |
| IStripperManager.FullSearchKeepsPath | src/thermalright_lcd_control/integrations/istripper_manager.py:184-193 | When the detector finds a well-formed path, the full search records that very path. |
| IStripperManager.Stages | src/thermalright_lcd_control/integrations/istripper_manager.py:72-88 | There are three stages, in order: the registry (nothing off Windows), the usual folders of the chosen reading, and the full search. Under `AsWritten` the folders are the drive-relative ones the code builds; under `Corrected` they are the rooted ones. |
| IStripperManager.StagesReadingsAgree | src/thermalright_lcd_control/integrations/istripper_manager.py:72-88 | The two readings share the registry and full-search stages, and off Windows all three stages agree. |
| IStripperManager.FirstStage | src/thermalright_lcd_control/integrations/istripper_manager.py:72-91 | The first successful stage wins: all earlier stages failed. Nothing is found exactly when every stage fails. |
| IStripperManager.DetectInstallation | src/thermalright_lcd_control/integrations/istripper_manager.py:50-91 | Under either reading, a cached path that still exists is returned with no search when the cache is allowed. Otherwise the first successful stage in the order registry, usual folders, full search is returned and recorded with its executable name. With no success nothing is found and nothing changes. |
| IStripperManager.RegistryFirst | src/thermalright_lcd_control/integrations/istripper_manager.py:72-76 | Under either reading, a registry hit is returned even if the usual folders or a full search would also find something. |
| IStripperManager.DetectedThenCached | src/thermalright_lcd_control/integrations/istripper_manager.py:67-69 | Under either reading, after the registry or a usual folder found the installation, asking again with the cache answers the same without searching. |
| IStripperManager.IsProcessRunning | src/thermalright_lcd_control/integrations/istripper_manager.py:199-215 | iStripper counts as running exactly when some readable process name is one of its four process names. |
| IStripperManager.Round | src/thermalright_lcd_control/integrations/istripper_manager.py:250-275 | One round fires the start event exactly on a false-to-true change and the stop event exactly on true-to-false. `is_running` changes only with an event, and the last state is always updated. |
| IStripperManager.Run | src/thermalright_lcd_control/integrations/istripper_manager.py:248-275 | A run gives one event slot per observation and remembers the last observation. |
| IStripperManager.RunEvents | src/thermalright_lcd_control/integrations/istripper_manager.py:255-274 | Round i fires the start event exactly when it sees iStripper running after it was not, and the stop event exactly on the reverse change. |
| IStripperManager.RunIsRunning | src/thermalright_lcd_control/integrations/istripper_manager.py:255-266 | After a run with no event `is_running` is unchanged. After any event it equals the last observation. |
| IStripperManager.NoEventsKeepLast | src/thermalright_lcd_control/integrations/istripper_manager.py:255-274 | A run without events never changed state, so its last observation equals the starting one. |
| IStripperManager.AlreadyRunningNotReported | src/thermalright_lcd_control/integrations/istripper_manager.py:248-266 | If iStripper was already running when the loop took its first reading and keeps running, no start event fires and `is_running` stays false. |
| IStripperManager.FirstContent | src/thermalright_lcd_control/integrations/istripper_manager.py:303-323 | The content folder is the first candidate name that exists as a folder with at least one subfolder, and there is none exactly when no candidate qualifies. |
| IStripperManager.ContentFromRegistry | src/thermalright_lcd_control/integrations/istripper_manager.py:351-399 | Off Windows nothing is found. On Windows the keys are tried in order, and the result is the first key's folder. There is none exactly when no key yields a folder. A folder found exists and is a folder. |
| IStripperManager.KeyContent | src/thermalright_lcd_control/integrations/istripper_manager.py:365-386 | A key that cannot be opened yields nothing. A `DataPath` that is an existing folder wins. Otherwise the key yields the first data folder under its `InstallPath`, or nothing without one. |
| IStripperManager.FirstDataDir | src/thermalright_lcd_control/integrations/istripper_manager.py:379-384 | Under the registry's install path, the result is the first listed name that is an existing folder. There is none exactly when no listed name is. |
| IStripperManager.DetectContentDirectory | src/thermalright_lcd_control/integrations/istripper_manager.py:281-349 | With no existing installation nothing is found. Otherwise the search order is the install folder's candidates, then the registry, then the parent folder's candidates. Only a found folder is recorded. |
| IStripperManager.FoundContentQualifies | src/thermalright_lcd_control/integrations/istripper_manager.py:313-344 | Off Windows, any content folder found holds at least one subfolder. |
| IStripperManager.GetContentDirectory | src/thermalright_lcd_control/integrations/istripper_manager.py:401-417 | A recorded folder that still exists is returned as it is. Otherwise, with auto-detection the result is a fresh detection from the recorded installation, and without it nothing is returned. |
| IStripperManager.ContentDirectoryThenCached | src/thermalright_lcd_control/integrations/istripper_manager.py:401-417 | A detected content folder is recorded, so the next request returns it without detecting again. |
| IStripperManager.SubdirsOf | src/thermalright_lcd_control/integrations/istripper_manager.py:432-434 | The listed entries kept are exactly those that are folders. |
| IStripperManager.ListModelDirectories | src/thermalright_lcd_control/integrations/istripper_manager.py:419-442 | The model folders are the content folder's subfolders, sorted by name, and none when there is no content folder or it cannot be listed. |
| IStripperManager.MediaOf | src/thermalright_lcd_control/integrations/istripper_manager.py:464-466 | The kept items are exactly the files whose lower-cased suffix is listed, and they are a sub-multiset of the items. |
| IStripperManager.ModelMediaFiles | src/thermalright_lcd_control/integrations/istripper_manager.py:444-474 | A missing model folder, or a failed walk, gives no files. Otherwise the result holds exactly the walked files with a listed suffix, from the default list when none is given, sorted by name. |
| IStripperManager.PyPrefix | src/thermalright_lcd_control/integrations/istripper_manager.py:490 | `s[:n]` is a prefix of `s` of length `min(n, len(s))`, or `len(s) + n` floored at 0 for a negative `n`. |
| IStripperManager.LimitModels | src/thermalright_lcd_control/integrations/istripper_manager.py:489-490 | A limit of `None` or 0 keeps every model. Any limit keeps a prefix of them. |
| IStripperManager.MediaByModel | src/thermalright_lcd_control/integrations/istripper_manager.py:492-496 | No model maps to an empty media list. |
| IStripperManager.MediaByModelEntries | src/thermalright_lcd_control/integrations/istripper_manager.py:492-496 | Every model with media has an entry under its name, and every entry is the media of a model with that name. |
| IStripperManager.AllModelMedia | src/thermalright_lcd_control/integrations/istripper_manager.py:476-498 | Every kept model with media appears under its name. Every entry is the non-empty media list of a kept model. |
| IStripperManager.ZeroLimitIsNoLimit | src/thermalright_lcd_control/integrations/istripper_manager.py:489-490 | A limit of 0 processes every model, exactly as no limit does. |
| GpuDetector.FirstOfVendor | src/thermalright_lcd_control/device_controller/metrics/gpu_detector.py:229-242 | Each vendor loop of `get_primary_gpu` finds the first entry of that vendor in list order, or none when no entry has that vendor. |
| GpuDetector.PrimaryGpu | src/thermalright_lcd_control/device_controller/metrics/gpu_detector.py:217-244 | There is no primary GPU exactly when none was detected. Otherwise the primary GPU is the best-ranked entry: NVIDIA before AMD before Intel before any other vendor, and the earliest entry among equals. |
| GpuDetector.BestRankedUnique | src/thermalright_lcd_control/device_controller/metrics/gpu_detector.py:217-244 | Only one position is best-ranked, so the primary GPU is fully determined. |
| GpuDetector.NvidiaFirst | src/thermalright_lcd_control/device_controller/metrics/gpu_detector.py:229-232 | Whenever an NVIDIA GPU is present, the primary GPU is the first NVIDIA entry, whatever comes before it. |
| GpuDetector.ParseNvidia | src/thermalright_lcd_control/device_controller/metrics/gpu_detector.py:63-83 | A failing `nvidia-smi` or a blank output gives no entry. Otherwise each line of the stripped output gives one NVIDIA entry, holding the stripped name, with the line's position as its index. |
| GpuDetector.ParseNvidiaRoundTrip | src/thermalright_lcd_control/device_controller/metrics/gpu_detector.py:74-77 | Clean names printed one per line, with any surrounding whitespace, parse back to exactly those names at indices 0, 1, 2 and so on. |
| GpuDetector.StripAround | src/thermalright_lcd_control/device_controller/metrics/gpu_detector.py:74-75 | Stripping removes exactly the whitespace around a text that does not itself start or end with whitespace. |
| GpuDetector.DetectAll | src/thermalright_lcd_control/device_controller/metrics/gpu_detector.py:44-60 | The detected list holds exactly the NVIDIA entries first, then the AMD entries, then the Intel entries. |
| GpuDetector.DetectAllLinux | src/thermalright_lcd_control/device_controller/metrics/gpu_detector.py:44-191 | On Linux, the Intel entries are read from sysfs after the NVIDIA and AMD entries, numbered from the length of the list so far. `GpuDetector.LinuxIndicesArePositions` shows that each NVIDIA and Intel entry's index is its position. |
| GpuDetector.IntelFromSysfs | src/thermalright_lcd_control/device_controller/metrics/gpu_detector.py:169-191 | There is one generic Intel entry per DRM card whose vendor file reads `0x8086` once stripped, and unreadable files are skipped. The entries are numbered on from the list length at the time. |
| GpuDetector.IntelCountZero | src/thermalright_lcd_control/device_controller/metrics/gpu_detector.py:169-191 | No Intel entry is added exactly when no readable vendor file reads `0x8086` once stripped. |
| GpuDetector.LinuxIndicesArePositions | src/thermalright_lcd_control/device_controller/metrics/gpu_detector.py:44-191 | On Linux every NVIDIA and Intel entry's index is its position in the detected list, and there are Intel entries exactly when some vendor file names Intel. |
| GpuDetector.HasMetricsHandler | src/thermalright_lcd_control/device_controller/metrics/gpu_detector.py:250-269 | A metrics handler is returned exactly when a GPU is passed in or one was detected. With neither, the answer is `None`. |
| TaskScheduler.TaskRun | src/thermalright_lcd_control/utils/task_scheduler.py:87 | `/TR` is a double quote, the program, a double quote, a space, then the arguments: its length and the positions of the quotes and the space are fixed. `TaskScheduler.TaskRunParts` shows that the program and the arguments appear unchanged. |
| TaskScheduler.TaskRunParts | src/thermalright_lcd_control/utils/task_scheduler.py:87 | The program sits between the two quotes and the arguments follow the space, both unchanged. |
| TaskScheduler.SplitTaskRun | src/thermalright_lcd_control/utils/task_scheduler.py:87 | Reading a `/TR` value back splits it into a program and arguments that account for every character but the two quotes and the space. |
| TaskScheduler.TaskRunRoundTrip | src/thermalright_lcd_control/utils/task_scheduler.py:87 | A program path without a double quote reads back from `/TR` exactly, together with its arguments. |
| TaskScheduler.TaskRunArguments | src/thermalright_lcd_control/utils/task_scheduler.py:75-87 | Non-empty arguments never read back as empty. |
| TaskScheduler.CreateCommand | src/thermalright_lcd_control/utils/task_scheduler.py:69-94 | The create command has 13 words: the task name, `/TR`, `/SC ONLOGON`, `/RL`, then `/F` and finally `/DESC` with the description. The level is `HIGHEST` exactly for an administrator task and `LIMITED` exactly otherwise. |
| TaskScheduler.FlagValue | src/thermalright_lcd_control/utils/task_scheduler.py:83-94 | A flag's value is the word after its first occurrence, with no earlier occurrence of the flag. There is none when the flag does not occur before the last word. |
| TaskScheduler.FlagValueAt | src/thermalright_lcd_control/utils/task_scheduler.py:83-94 | The first occurrence of a flag decides its value. |
| TaskScheduler.CreateCommandSchedule | src/thermalright_lcd_control/utils/task_scheduler.py:88-89 | The created task runs at logon, with the privilege level the caller asked for. |
| TaskScheduler.CreateCommandProgram | src/thermalright_lcd_control/utils/task_scheduler.py:71-87 | The created task runs the requested program, or the interpreter when none is given. It runs it with the requested arguments, or the system-tray module when they are empty. |
| TaskScheduler.OperationCommand | src/thermalright_lcd_control/utils/task_scheduler.py:123-191 | Every other command starts with `schtasks <verb> /TN <task>`. Only deletion forces with `/F`, and only enabling and disabling use `/Change`. |
| TaskScheduler.SameTaskEverywhere | src/thermalright_lcd_control/utils/task_scheduler.py:28-42 | Every command, creation included, names the same task, `\Thermalright\ThermalrightLCDControl`. |
| TaskScheduler.Entry | src/thermalright_lcd_control/utils/task_scheduler.py:203-205 | A line contributes an entry exactly when it contains a colon. |
| TaskScheduler.Entries | src/thermalright_lcd_control/utils/task_scheduler.py:202-205 | The listing is read one entry per line, in order. |
| TaskScheduler.LastEntryFor | src/thermalright_lcd_control/utils/task_scheduler.py:205 | The position found is the last entry with the key, with no later entry for it. |
| TaskScheduler.ParseEntries | src/thermalright_lcd_control/utils/task_scheduler.py:201-207 | A key is in the status exactly when some line sets it. Its value is that of the last line setting it, since later lines overwrite earlier ones. |
| TaskScheduler.TaskStatus | src/thermalright_lcd_control/utils/task_scheduler.py:182-211 | A failing query gives the empty status. Otherwise the status is the parse of the output's lines. |
| TaskScheduler.ParsedEntriesStripped | src/thermalright_lcd_control/utils/task_scheduler.py:205 | No key or value carries surrounding whitespace. |
| TaskScheduler.EntryRoundTrip | src/thermalright_lcd_control/utils/task_scheduler.py:204-205 | A `key: value` line whose key has no colon reads back as the stripped key and value, even when the value contains colons. |
| ZadigManager.SupportedDevicesDistinct | src/thermalright_lcd_control/utils/zadig_manager.py:37-41 | There are three supported devices, and no two share a vendor and product id, so a lookup by id is unambiguous. |
| ZadigManager.FindDevice | src/thermalright_lcd_control/utils/zadig_manager.py:235-239 | The lookup finds nothing exactly when no device has both ids. Otherwise it answers with a listed device that has them. |
| ZadigManager.DeviceName | src/thermalright_lcd_control/utils/zadig_manager.py:235-244 | A supported device is named by its own name. Any other device is `Device vvvv:pppp`. |
| ZadigManager.SupportedDeviceNamed | src/thermalright_lcd_control/utils/zadig_manager.py:235-244 | Each supported device's ids look up to its own name. |
| ZadigManager.SelectStep | src/thermalright_lcd_control/utils/zadig_manager.py:264-269 | Step 3 mentions both the device name and `USB ID vvvv:pppp`. |
| ZadigManager.Pieces | src/thermalright_lcd_control/utils/zadig_manager.py:267-268 | A message built from pieces contains each of its pieces. |
| ZadigManager.Steps | src/thermalright_lcd_control/utils/zadig_manager.py:251-291 | There are six steps, numbered 1 to 6 in order, and the third is the device-selection step. |
| ZadigManager.InstallationInstructions | src/thermalright_lcd_control/utils/zadig_manager.py:223-305 | The instructions carry the looked-up device name, the ids as `f"{id:04x}"` and the WinUSB driver. They have six steps numbered 1 to 6, a selection step naming the device and its USB id, and exactly four troubleshooting entries. |
| ZadigManager.InstructionIds | src/thermalright_lcd_control/utils/zadig_manager.py:248-249 | For 16-bit ids each printed id is four hex digits that read back as the id. |
| ZadigManager.Progress | src/thermalright_lcd_control/utils/zadig_manager.py:84-88 | Progress is reported exactly when there is a callback and the total size is positive. It is 100 once the bytes received reach the total. Before that it is the floor of bytes × 100 / total, the `q` with `q × total <= bytes × 100 < (q + 1) × total`. |
| ZadigManager.DivAtLeast | src/thermalright_lcd_control/utils/zadig_manager.py:87 | Floor division of a number at least 100 times the divisor gives at least 100. |
| ZadigManager.ProgressMonotone | src/thermalright_lcd_control/utils/zadig_manager.py:84-88 | The reported percentage never goes down as blocks arrive. |
| ZadigManager.MulMono | src/thermalright_lcd_control/utils/zadig_manager.py:86 | Multiplying by a non-negative block size keeps the order. |
| ZadigManager.DivMono | src/thermalright_lcd_control/utils/zadig_manager.py:87 | Floor division by a positive size keeps the order. |
| ZadigManager.CheckDriverStatus | src/thermalright_lcd_control/utils/zadig_manager.py:141-192 | The status is `not_found` exactly for an absent device and `accessible` exactly when configuration succeeds. A USB error is `access_denied` exactly when its text contains either access-denied phrase, and `error` otherwise. Any other exception is `unknown`. Only errors carry their text, and only `access_denied` carries a recommendation. |
| ZadigManager.DetectDevices | src/thermalright_lcd_control/utils/zadig_manager.py:107-139 | Without pyusb nothing is reported. Every reported device is a connected supported device, paired with its driver status. |
| ZadigManager.DetectDevicesComplete | src/thermalright_lcd_control/utils/zadig_manager.py:119-132 | Every connected supported device is reported. |
| SystemChecker.Repr | src/thermalright_lcd_control/diagnostics/system_checker.py:35-37 | The text starts with ✓ exactly when the check passed and with ✗ exactly when it failed, and it ends with `: ` and the message. |
| SystemChecker.CheckPythonVersion | src/thermalright_lcd_control/diagnostics/system_checker.py:76-93 | The check passes exactly when the version is at least 3.10, compared lexicographically. Exactly a failing check carries the install hint, and the message starts with `Python major.minor.micro`. |
| SystemChecker.VersionBoundary | src/thermalright_lcd_control/diagnostics/system_checker.py:78-81 | 3.10 passes and 3.9 fails whatever the micro version, and any 4.x passes. |
| SystemChecker.HidMissing | src/thermalright_lcd_control/diagnostics/system_checker.py:116-124 | `hid` is reported missing exactly when it fails to import. It is reported with the explanatory label exactly when the error text contains one of `hidapi`, `dll`, `library`, `.so` and `dylib`, and always with pip name `hid`. |
| SystemChecker.MissingPackages | src/thermalright_lcd_control/diagnostics/system_checker.py:98-113 | The missing list holds exactly the required packages that fail to import, each labelled with its pip name. |
| SystemChecker.MissingPackagesAppend | src/thermalright_lcd_control/diagnostics/system_checker.py:109-113 | The missing list is an order-preserving filter: the list for a concatenation is the first part's list followed by the second's. |
| SystemChecker.MissingPackagesSnoc | src/thermalright_lcd_control/diagnostics/system_checker.py:109-113 | Checking one more package appends exactly its own entry: nothing when it imports, its pip-name entry when it does not. |
| SystemChecker.MissingEntry | src/thermalright_lcd_control/diagnostics/system_checker.py:109-113 | A package contributes nothing exactly when it imports, and otherwise the entry labelled with its pip name. |
| SystemChecker.AllMissing | src/thermalright_lcd_control/diagnostics/system_checker.py:98-124 | Nothing is missing exactly when every required package imports and `hid` loads. |
| SystemChecker.Labels | src/thermalright_lcd_control/diagnostics/system_checker.py:133 | One display label per missing entry, in order. |
| SystemChecker.PipNames | src/thermalright_lcd_control/diagnostics/system_checker.py:134 | One pip name per missing entry, in order. |
| SystemChecker.CheckDependencies | src/thermalright_lcd_control/diagnostics/system_checker.py:95-140 | The dependency check passes exactly when nothing is missing, then with `All required packages are installed` and no hint. Otherwise the message lists the labels joined with `, `, and the hint is `Install with: pip install` followed by the pip names. |
| SystemChecker.JoinAvoids | src/thermalright_lcd_control/diagnostics/system_checker.py:134 | A character absent from every part and from the separator is absent from the join. |
| SystemChecker.OccursKeepsChars | src/thermalright_lcd_control/diagnostics/system_checker.py:133-140 | Containing a substring means containing each of its characters. |
| SystemChecker.FixHintHasNoLabel | src/thermalright_lcd_control/diagnostics/system_checker.py:122-140 | The fix hint never contains the explanatory label, because it is built only from pip names. |
| SystemChecker.HintAvoids | src/thermalright_lcd_control/diagnostics/system_checker.py:139 | The hint prefix and pip names free of `r` give a hint free of `r`. |
| SystemChecker.NotInConcat | src/thermalright_lcd_control/diagnostics/system_checker.py:139 | A character absent from two strings is absent from their concatenation. |
| SystemChecker.MissingCharNoMatch | src/thermalright_lcd_control/diagnostics/system_checker.py:133-140 | A string lacking one of a substring's characters does not contain it. |
| SystemChecker.MissingPip | src/thermalright_lcd_control/diagnostics/system_checker.py:98-124 | Every missing entry's pip name is `hid` or one of the required packages' pip names. |
| SystemChecker.PipAvoidsR | src/thermalright_lcd_control/diagnostics/system_checker.py:98-105 | No required pip name contains the letter `r`, which the explanatory label does contain. |
| SystemChecker.NativeErrorExplained | src/thermalright_lcd_control/diagnostics/system_checker.py:120-137 | A native-library error fails the check, and its message ends with the explanatory label. |
| SystemChecker.JoinLast | src/thermalright_lcd_control/diagnostics/system_checker.py:133 | A join ends with its last part. |
| SystemChecker.AllPresentPasses | src/thermalright_lcd_control/diagnostics/system_checker.py:126-131 | With everything importable the result is the passing check `All required packages are installed`, with no hint. |
| SystemChecker.RunAllChecks | src/thermalright_lcd_control/diagnostics/system_checker.py:51-74 | A run lists the Python check, then the dependency check, then the platform-specific checks, then the USB, GPU, window-capture and iStripper checks. |
| SystemChecker.PlatformChecks | src/thermalright_lcd_control/diagnostics/system_checker.py:59-64 | A platform other than Windows and Linux adds no platform-specific check. |
| SystemChecker.RunAllChecksForgets | src/thermalright_lcd_control/diagnostics/system_checker.py:53 | A run never carries over the results of an earlier run. |
| SystemChecker.RunExitsCleanly | src/thermalright_lcd_control/diagnostics/system_checker.py:470-481 | A run exits with status 0 exactly when Python is 3.10 or newer, no dependency is missing, and every platform, USB, GPU, window-capture and iStripper check passed. |
| SystemChecker.CountPassed | src/thermalright_lcd_control/diagnostics/system_checker.py:464 | The passed count is at most the number of checks. |
| SystemChecker.CountFailed | src/thermalright_lcd_control/diagnostics/system_checker.py:465 | The failed count is at most the number of checks. |
| SystemChecker.CountsAddUp | src/thermalright_lcd_control/diagnostics/system_checker.py:463-465 | Every check is counted exactly once, as passed or as failed. |
| SystemChecker.NoFailures | src/thermalright_lcd_control/diagnostics/system_checker.py:465 | The failed count is 0 exactly when every check passed. |
| SystemChecker.GenerateReport | src/thermalright_lcd_control/diagnostics/system_checker.py:450-467 | The report keeps the checks in order. The total is their number, passed and failed add up to the total, and there are no failures exactly when every check passed. |
| SystemChecker.ExitCode | src/thermalright_lcd_control/diagnostics/system_checker.py:480-481 | The exit status is 0 exactly when every check passed, and 1 otherwise. |
| SystemChecker.OldPythonFails | src/thermalright_lcd_control/diagnostics/system_checker.py:76-93 | A Python older than 3.10 alone makes the run exit with status 1. |
| CodecDetector.NewDetector | src/thermalright_lcd_control/utils/codec_detector.py:43-61 | A detector can be built exactly on Windows. Elsewhere construction fails with `Codec detector only works on Windows`. A built detector carries the two packs' registry keys. |
| CodecDetector.CheckRegistryKeys | src/thermalright_lcd_control/utils/codec_detector.py:118-155 | The registry finds nothing exactly when none of the pack's keys opens. A finding names the pack and says it came from the registry. |
| CodecDetector.RegistryFirstOpened | src/thermalright_lcd_control/utils/codec_detector.py:122-145 | The finding comes from the first key that opens: its version, and its `InstallDir` or else its `InstallPath`. |
| CodecDetector.LocationsAsWritten | src/thermalright_lcd_control/utils/codec_detector.py:159 | Looking up the folder table by a name other than `K-Lite` or `LAV` gives no folders. |
| CodecDetector.Locations | src/thermalright_lcd_control/utils/codec_detector.py:32-41 | With the table keyed by the pack names, each pack gets its own two folders and any other name gets none. |
| CodecDetector.CheckFileLocations | src/thermalright_lcd_control/utils/codec_detector.py:157-170 | The file system finds nothing exactly when none of the folders exists. A finding names the pack, says it came from the file system and carries no version. |
| CodecDetector.FirstExistingLocation | src/thermalright_lcd_control/utils/codec_detector.py:161-168 | The folder reported is the first of the list that exists. |
| CodecDetector.DetectPack | src/thermalright_lcd_control/utils/codec_detector.py:107-114 | A registry finding wins. Only when the registry finds nothing is the file-system fallback asked. Either way the finding names the pack. |
| CodecDetector.DetectPackNone | src/thermalright_lcd_control/utils/codec_detector.py:106-114 | A pack goes undetected exactly when none of its keys opens and none of its folders exists. |
| CodecDetector.Names | src/thermalright_lcd_control/utils/codec_detector.py:104-116 | The names of the findings, one per finding, in order. |
| CodecDetector.PackNames | src/thermalright_lcd_control/utils/codec_detector.py:106 | The names of the packs asked about, in order. |
| CodecDetector.DetectPacks | src/thermalright_lcd_control/utils/codec_detector.py:97-116 | There are never more findings than packs, and every finding names a pack that was asked about. |
| CodecDetector.DetectPacksComplete | src/thermalright_lcd_control/utils/codec_detector.py:106-114 | Every pack found by either route is among the results. |
| CodecDetector.PacksOfTwo | src/thermalright_lcd_control/utils/codec_detector.py:106-114 | The survey of two packs is the first pack's finding, if any, then the second's. |
| CodecDetector.DetectPacksNamed | src/thermalright_lcd_control/utils/codec_detector.py:106-114 | When the pack names are distinct, a pack's name is among the results exactly when that pack is found. |
| CodecDetector.DetectCodecPacksAsWritten | src/thermalright_lcd_control/utils/codec_detector.py:97-116 | The survey as written reports at most the two packs. |
| CodecDetector.DetectCodecPacks | src/thermalright_lcd_control/utils/codec_detector.py:97-116 | The corrected survey reports at most two packs, each K-Lite Codec Pack or LAV Filters. |
| CodecDetector.FallbackNeverMatches | src/thermalright_lcd_control/utils/codec_detector.py:157-170 | As written, the fallback gets no folders for either pack name, so it never finds anything. |
| CodecDetector.KLiteOnDiskMissed | src/thermalright_lcd_control/utils/codec_detector.py:157-170 | With no registry key and only the K-Lite folder on disk, the survey as written reports nothing, while the corrected survey reports K-Lite from that folder. |
| CodecDetector.DetectCodecPacksSound | src/thermalright_lcd_control/utils/codec_detector.py:106-114 | In the corrected survey a pack is reported exactly when one of its keys opens or one of its folders exists. |
| CodecDetector.NothingInstalled | src/thermalright_lcd_control/utils/codec_detector.py:97-116 | Without any registry key or folder no pack is reported, as written or corrected. |
| CodecDetector.DetectFFmpeg | src/thermalright_lcd_control/utils/codec_detector.py:172-195 | FFmpeg is reported exactly when the command exits with status 0. The version has no line break and starts the output, and the path reads `In system PATH`. |
| CodecDetector.FirstLinePrefix | src/thermalright_lcd_control/utils/codec_detector.py:184 | The first piece of `split('\n')` starts the text. It is the whole text when there is no line break, and otherwise it is followed by one. |
| CodecDetector.FFmpegVersionIsFirstLine | src/thermalright_lcd_control/utils/codec_detector.py:182-189 | On status 0 the reported version is the whole first line of the output. |
| CodecDetector.BuildFlags | src/thermalright_lcd_control/utils/codec_detector.py:206-208 | Each support flag holds exactly when the lower-cased build information contains one of its words. |
| CodecDetector.BuildFlagsIgnoreCase | src/thermalright_lcd_control/utils/codec_detector.py:206-208 | The flags do not change when the build information is upper-cased or lower-cased. |
| CodecDetector.Backends | src/thermalright_lcd_control/utils/codec_detector.py:225-251 | The backends reported are exactly the listed ones whose capture opens. |
| CodecDetector.BackendsAppend | src/thermalright_lcd_control/utils/codec_detector.py:238-245 | The backends are reported in table order: those of an earlier part of the table come before those of a later part. |
| CodecDetector.BackendsInTableOrder | src/thermalright_lcd_control/utils/codec_detector.py:232-245 | The result is Media Foundation, then DirectShow, then FFmpeg, each present exactly when its capture opens. |
| CodecDetector.DetectOpenCvCodecs | src/thermalright_lcd_control/utils/codec_detector.py:197-245 | Without OpenCV the answer is the error `OpenCV not installed`. Any other failure answers with its own text. Otherwise the answer carries the version and the three flags of the build information. Its backends are Media Foundation, then DirectShow, then FFmpeg, each present exactly when its capture opens. |
| CodecDetector.CheckMediaFoundation | src/thermalright_lcd_control/utils/codec_detector.py:253-279 | When running PowerShell raises (the program is missing, it times out), the status is unknown and the error is the exception's text. Otherwise Media Foundation is available exactly when the output contains `Enabled`, with status `Enabled` exactly when available and `Disabled` exactly when not. |
| CodecDetector.CanPlayVideo | src/thermalright_lcd_control/utils/codec_detector.py:281-311 | A video plays exactly when it opens and a frame is read. A file that does not open gives `Failed to open video file`, and an exception gives `Error: ` and its text. |
| CodecDetector.Recommendations | src/thermalright_lcd_control/utils/codec_detector.py:78-93 | K-Lite is recommended exactly when no pack was found, and FFmpeg exactly when FFmpeg was not found, each at most once, with K-Lite first. |
| CodecDetector.DetectAllCodecs | src/thermalright_lcd_control/utils/codec_detector.py:63-95 | The full report is the survey of packs, the FFmpeg, OpenCV and Media Foundation probes, and the recommendations drawn from the packs and FFmpeg. Under `AsWritten` the survey is the code's (so a K-Lite folder with no registry key counts as no pack and K-Lite is recommended); under `Corrected` the folder fallback works. |
| CodecDetector.CleanMachineGetsBoth | src/thermalright_lcd_control/utils/codec_detector.py:78-93 | Under either reading, a machine without packs, and where running `ffmpeg` raises, gets both recommendations, K-Lite first. |
| Rgb565.Solid | tests/test_numpy_global_state.py:31-34 | A solid image has the requested size and the requested colour in every pixel. |
| Rgb565.Split16 | tests/test_numpy_global_state.py:104-105 | A 16-bit word is its high byte times 256 plus its low byte, and both bytes are below 256. |
| Rgb565.Word | tests/test_numpy_global_state.py:103 | The 5-6-5 word of a pixel, computed in `uint16`. `Rgb565.WordValue` shows it equals `(r / 8) * 2048 + (g / 4) * 32 + b / 8` and stays below 65536. |
| Rgb565.Hi | tests/test_numpy_global_state.py:104 | The high byte of the word. `Rgb565.HiLo` shows that it and the low byte spell out the word, high byte first. |
| Rgb565.Lo | tests/test_numpy_global_state.py:105 | The low byte of the word. `Rgb565.HiLo` shows that the high byte times 256 plus it is the word. |
| Rgb565.HiLo | tests/test_numpy_global_state.py:103-105 | The two bytes sent for a pixel spell out its word, high byte first. |
| Rgb565.WidenValue | tests/test_numpy_global_state.py:100-102 | Widening a channel to `uint16` keeps its value. |
| Rgb565.Fields | tests/test_numpy_global_state.py:103 | The word's three fields are the shifted red, green and blue channels, so no field spills into another. |
| Rgb565.RedField | tests/test_numpy_global_state.py:103 | The red field is the red channel divided by 8. |
| Rgb565.GreenField | tests/test_numpy_global_state.py:103 | The green field is the green channel divided by 4. |
| Rgb565.BlueField | tests/test_numpy_global_state.py:103 | The blue field is the blue channel divided by 8. |
| Rgb565.Decompose | tests/test_numpy_global_state.py:103 | Any 16-bit word is its 5-6-5 fields put back together. |
| Rgb565.WordValue | tests/test_numpy_global_state.py:99-103 | The `uint16` computation equals the same formula on unbounded integers and stays below 65536, so it cannot overflow. |
| Rgb565.Unpack | tests/test_numpy_global_state.py:103-105 | Reading the fields back from two bytes gives a 5-bit red, a 6-bit green and a 5-bit blue. |
| Rgb565.UnpackPixel | tests/test_numpy_global_state.py:103-105 | Reading back a pixel's two bytes gives its channels with the low bits dropped. |
| Rgb565.Fields565 | tests/test_numpy_global_state.py:103 | Packing fields of 5, 6 and 5 bits into a number and reading them back gives the same fields. |
| Rgb565.UnpackExact | tests/test_numpy_global_state.py:103-105 | Channels that already lie on the 5-6-5 grid read back unchanged. |
| Rgb565.EncodeRow | tests/test_numpy_global_state.py:106-108 | A row becomes two bytes per pixel. |
| Rgb565.EncodeRows | tests/test_numpy_global_state.py:106-109 | `tobytes` of the interleaved array gives the rows' bytes one row after another. Its length and layout are stated by `Rgb565.EncodedLength` and `Rgb565.EncodedAtRow`. |
| Rgb565.EncodedLength | tests/test_numpy_global_state.py:106-119 | A `width` by `height` image becomes `2 * width * height` bytes. |
| Rgb565.RowStartIs | tests/test_numpy_global_state.py:109 | The pixels before row `y` number `y * width`. |
| Rgb565.EncodedAtRow | tests/test_numpy_global_state.py:106-109 | The bytes of row `y` sit in the encoding unchanged, at offset twice the number of pixels in the rows before it. |
| Rgb565.EncodedAt | tests/test_numpy_global_state.py:106-109 | The pixel in row `y` and column `x` fills bytes `2 * (y * width + x)` and the one after, high byte first. |
| Rgb565.Words | tests/test_numpy_global_state.py:104-109 | Reading a byte string two bytes at a time gives half as many words, each below 65536. |
| Rgb565.WordsAt | tests/test_numpy_global_state.py:104-109 | Each word read back is its two bytes, high byte first. |
| Rgb565.WordsRoundTrip | tests/test_numpy_global_state.py:103-109 | Reading an encoded image back gives each pixel's word in row-major order. |
| Rgb565.EncodeViaModule | tests/test_numpy_global_state.py:95-109 | The helper fails exactly when the image cannot be stretched over its fixed 4 by 4 output. Otherwise it gives 32 bytes. |
| Rgb565.OutByteExact | tests/test_numpy_global_state.py:106-109 | For a 4 by 4 image, output cell `[y, c]` is byte `8 * y + c` of the row-major encoding. |
| Rgb565.ModuleMatchesEncoder | tests/test_numpy_global_state.py:95-109 | For a 4 by 4 image the helper's output is exactly the row-major encoding, two bytes per pixel. |
| Rgb565.ModuleByteAt | tests/test_numpy_global_state.py:106-109 | Each output byte of a 4 by 4 image equals the same byte of the row-major encoding. |
| Rgb565.SinglePixelFills | tests/test_numpy_global_state.py:106-108 | A one-pixel image is stretched over the whole output: every pixel slot holds its two bytes. |
| Rgb565.OrangeFirstPixel | tests/test_numpy_global_state.py:115-128 | Solid (255, 128, 0) encodes to 32 bytes that start 0xFC, 0x00. |
| Rgb565.SolidIsUniform | tests/test_numpy_global_state.py:130-162 | A solid 4 by 4 image gives the colour's two bytes at every pixel, so its encoding depends only on the colour. |

## Left out

- Pixel values. Decoding, LANCZOS resampling, GIF frame iteration and the mss, ImageGrab and scrot grabs are inputs. An image is the recipe that made it, so sizes, modes and where each pixel comes from can be stated, but no pixel value a decoder or filter produces can.
- Pillow's shortcut that returns a same-size image unchanged from `resize` is not modelled. A resize always produces a new resampled image of the requested size.
- The metrics `Timer` chain and the iStripper monitor thread. Only one round of each is modelled, in sequence, and the monitor is a function over a sequence of observed running states.
- The iStripper callbacks are not run. A callback that raises is swallowed by the source, and the model records only which event fires.
- The clock. `time.time()` is the `now` parameter, and durations are exact rationals, not floats.
- The zoom factor is an integer percentage, not a float, in both the configuration record and the capture.
- Window capture keeps no last-good frame. The comment at frame_manager.py:352 speaks of returning the last captured frame, but the code captures afresh on every poll and falls back to the black placeholder. The model follows the code.
- The scrot backend grabs the focused window rather than the one found by title. The grab is an input, so this difference is not visible in the model.
- `get_current_frame_info` is left out. It reads `wait_duration`, which is never assigned, so it raises.
- The zero-frame video. A video that yields no frame makes the source divide by zero when it polls. `FrameManager.Poll` requires the invariant `FrameManager.Valid`, which demands at least one frame, and `FrameManager.LoadValid` shows that only a frameless video misses it.
- FrameManager.Load: the metric collectors are an input outcome. `metricsError` is what constructing them or reading the first metrics raised. What they measure is not modelled, and neither is the timer left running when the background load fails after the metrics started.
- FrameManager.LoadPositiveDurations: assumes every GIF frame's duration is positive or absent. A zero `duration` in the metadata makes the source advance on every poll, and the model keeps that behaviour but proves positivity only under that assumption.
- Sorting.Sort: is proved sorted and a permutation of its input, not stable. The strings it sorts are whole values, so stability is invisible.
- IStripperManager.ModelMediaFiles: is proved sorted by file name and a permutation of the walked media files, but Python's stable sort is not modelled. Two media files with the same name in different sub-folders keep their `rglob` order in the source. The model does not state their relative order.
- FrameManager.CollectionFilesAsWritten: joins the background folder into each pattern literally. `glob.glob` also expands `[`, `*` and `?` in the folder part (frame_manager.py:222). A folder such as `C:\pics [2024]` therefore passes the `isdir` test but globs other folders, usually none, and the source raises "No images found". The model lists the folder's own files. The same holds for `FrameManager.CollectionFiles`, `FrameManager.LoadCollectionAsWritten` and `FrameManager.LoadCollection`.
- Text.Lower: folds only ASCII letters, while Python's `str.lower` folds every cased Unicode letter.
- DetectedAppsConfig.ConfigFilePath: joins strings the way `os.path.join` does, while the source builds a `pathlib` path. The file it names is the same, but pathlib's normalisation of the separators inside `LOCALAPPDATA` or the data folder is not modelled.
- Paths.JoinPath: models `os.path.join` for a directory and a plain file name. Drive letters and absolute second arguments, which `ntpath.join` treats specially, are not modelled.
- PurePath: UNC anchors and `..` components are not modelled. Parsing splits on both separators, so `VideoLAN\\VLC` is two components, as it is in `pathlib`.
- Path truthiness is not modelled. A `Path` object is always truthy in the source, and the model never tests it.
- Registry values are modelled as strings. Values of other registry types are not modelled.
- AppDetector.Search: takes `max_depth` as a natural number. The source never passes a negative depth.
- A directory listing that fails is modelled only when the listing starts. A failure part-way through an `iterdir()` is not modelled.
- `detect_istripper_content_directory` in `common/app_detector.py` is not part of this model.
- IStripperManager.FoundContentQualifies: is stated for the non-Windows path only, where the registry is not consulted. A folder named in the registry is accepted without checking that it holds a model folder.
- FrameManager.Fit: a zero output width or height makes PIL's `resize` raise inside `_resize_image` (frame_manager.py:125-126), but the model resizes to that size. The frame loaders that call `Fit` inherit this. `WindowCapture.ApplyScaling` does model the error: it answers nothing exactly when a scaled side is zero, as `capture_frame` does when it catches the error.
- The AMD sysfs probe on Linux is an input. In the source it calls `os.path.exists` with `os` imported only under `__main__`, so it raises a `NameError` that is caught, and it finds nothing.
- `get_all_gpus` returns a copy in the source. Lists are immutable values here, so the copy is the list itself.
- The `start_directory` argument of `create_task` is accepted and never used by the source. The model leaves it out.
- JSON values in the detected-apps file are modelled as strings or null. A number or a list in a path field is not modelled.
- Zadig's download, its launch and the driver installation script are left out. They run processes and write files. Only the progress value of the download hook is modelled.
- SystemChecker.CheckDependencies: an import is either importable or fails with `ImportError`. An import that raises another exception escapes `check_dependencies` in the source, and the two-valued `importable` input cannot express that.
- The system checks that talk to the system are inputs: the Windows, Linux, USB, GPU, window-capture and iStripper checks. `print_report` only prints and is left out.
- `get_codec_install_guide` returns constant text and is left out. The module's `main` only prints.
- The OpenCV backend ids (`CAP_MSMF`, `CAP_DSHOW`, `CAP_FFMPEG`) are represented by their names.
- Logging is left out everywhere.
- Rgb565.EncodeViaModule: requires a well-formed image, with every row as wide as the image. `convert("RGB")` is the identity on such an image, and other modes are not modelled.
- The NumPy error state is not modelled. `Rgb565.WordValue` shows the `uint16` computation cannot overflow, which is why the error state cannot change the output.

## Findings

| source | as written | input that shows it | evidently intended | confidence | as-written member | corrected member |
|---|---|---|---|---|---|---|
| src/thermalright_lcd_control/utils/codec_detector.py:157-170 | The file-system fallback looks up `CODEC_LOCATIONS` by the pack names `K-Lite Codec Pack` and `LAV Filters`, but the keys of that table, at lines 32-41, are `K-Lite` and `LAV`, so it never finds a folder. | No registry key, and `C:\\Program Files\\K-Lite Codec Pack` on disk: no pack is reported. | Each pack's own folders are searched, so the installed K-Lite folder is reported. | not executed | CodecDetector.KLiteOnDiskMissed | CodecDetector.DetectCodecPacksSound |
| src/thermalright_lcd_control/device_controller/display/frame_manager.py:218-225 | Each extension is globbed in lower and upper case. On Windows both globs match the same file, so it is listed twice. | A folder `C:\\pics` holding only `photo.jpg`, on Windows: two frames of the same photo. | Each image appears once, in sorted order. | not executed | FrameManager.CollectionDuplicatesOnWindows | FrameManager.CollectionFiles |
| src/thermalright_lcd_control/device_controller/display/frame_manager.py:254-259 | The capture is built without the configured `scale_factor`, so it always zooms by 1.0. | A configuration with scale factor 1.5: the capture still uses 1.0. | The capture zooms by the configured factor. | not executed | FrameManager.CaptureIgnoresConfiguredScale | FrameManager.LoadWindowCapture |
| src/thermalright_lcd_control/integrations/istripper_manager.py:140-155 | `Path('C:') / base / app` names a folder relative to the current directory of drive C:, not under its root. | iStripper installed at `C:\\Program Files\\iStripper`, with the current directory elsewhere: no usual folder finds it. | The usual folders are under each drive's root, starting with `C:\\Program Files\\iStripper`. | not executed | IStripperManager.CommonLocationsMissRootedInstall | IStripperManager.FirstRootedCandidate |

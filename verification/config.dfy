/** The declarative display configuration: the kinds of background, the
    text and metric overlay records, and the display record with its
    defaults and its one normalisation step. */
module Config {
  import opened Wrappers
  import opened Text
  import Images

  /** The five background kinds, with the string value each is stored as. */
  datatype BackgroundType = Image | Gif | Video | ImageCollection | WindowCapture {
    function Value(): string {
      match this
      case Image => "image"
      case Gif => "gif"
      case Video => "video"
      case ImageCollection => "image_collection"
      case WindowCapture => "window_capture"
    }
  }

  const AllBackgroundTypes: seq<BackgroundType> := [Image, Gif, Video, ImageCollection, WindowCapture]

  /** `BackgroundType(value)`: the kind stored as `value`, if any. */
  function BackgroundTypeFromValue(value: string): (r: Option<BackgroundType>)
    ensures r.Some? ==> r.value.Value() == value
    ensures (exists k :: 0 <= k < |AllBackgroundTypes| && AllBackgroundTypes[k].Value() == value) ==> r.Some?
  {
    if value == "image" then Some(Image)
    else if value == "gif" then Some(Gif)
    else if value == "video" then Some(Video)
    else if value == "image_collection" then Some(ImageCollection)
    else if value == "window_capture" then Some(WindowCapture)
    else None
  }

  /** There are exactly five kinds, each with its own stored value, and
      every stored value reads back as its kind. */
  lemma FiveBackgroundTypes()
    ensures |AllBackgroundTypes| == 5
    ensures forall b: BackgroundType :: b in AllBackgroundTypes
    ensures forall i, j :: 0 <= i < j < 5 ==> AllBackgroundTypes[i].Value() != AllBackgroundTypes[j].Value()
    ensures forall b: BackgroundType :: BackgroundTypeFromValue(b.Value()) == Some(b)
  {
    forall b: BackgroundType ensures b in AllBackgroundTypes {
      match b
      case Image => assert AllBackgroundTypes[0] == b;
      case Gif => assert AllBackgroundTypes[1] == b;
      case Video => assert AllBackgroundTypes[2] == b;
      case ImageCollection => assert AllBackgroundTypes[3] == b;
      case WindowCapture => assert AllBackgroundTypes[4] == b;
    }
  }

  /** Position and colour pairs of an overlay. */
  datatype Point = Point(x: int, y: int)

  const White := Images.Color(255, 255, 255, 255)

  datatype TextConfig = TextConfig(
    text: string, position: Point, fontSize: int, color: Images.Color, enabled: bool)

  /** `TextConfig()` with every field defaulted. */
  const DefaultTextConfig := TextConfig("", Point(0, 0), 20, White, true)

  datatype MetricConfig = MetricConfig(
    name: string, labelText: string, position: Point, fontSize: int,
    color: Images.Color, formatString: string, unit: string, enabled: bool)
  {
    /** The label followed by ": ", or nothing when there is no label. */
    function FormatLabel(): (r: string)
      ensures labelText == "" <==> r == ""
      ensures labelText != "" ==> |r| == |labelText| + 2 && r[..|labelText|] == labelText && EndsWith(r, ": ")
    {
      if labelText != "" then labelText + ": " else ""
    }
  }

  /** `MetricConfig(name)` with every other field defaulted. */
  function DefaultMetricConfig(name: string): MetricConfig {
    MetricConfig(name, "", Point(0, 0), 16, White, "{label}{value}", "", true)
  }

  /** Different non-empty labels render differently, so the label can be read
      back from the rendering. */
  lemma FormatLabelInjective(m1: MetricConfig, m2: MetricConfig)
    requires m1.FormatLabel() == m2.FormatLabel()
    ensures m1.labelText == m2.labelText
  {
    if m1.labelText != "" {
      assert m1.labelText == m1.FormatLabel()[..|m1.labelText|];
      assert m2.labelText == m2.FormatLabel()[..|m2.labelText|];
    }
  }

  /** The display configuration. `scalePct` is the content scale factor in
      percent (100 is 1.0x). `metricsConfigs` is `None` only before
      `__post_init__` has run. */
  datatype DisplayConfig = DisplayConfig(
    backgroundPath: string,
    backgroundType: BackgroundType,
    outputWidth: nat,
    outputHeight: nat,
    rotation: int,
    scalePct: nat,
    globalFontPath: Option<string>,
    foregroundImagePath: Option<string>,
    foregroundPosition: Point,
    foregroundAlpha: real,
    windowTitle: Option<string>,
    captureFps: int,
    metricsConfigs: Option<seq<MetricConfig>>,
    dateConfig: Option<TextConfig>,
    timeConfig: Option<TextConfig>)

  /** `__post_init__`: a missing metrics list becomes the empty list; a list
      that was supplied, and every other field, are left alone. */
  function PostInit(c: DisplayConfig): (r: DisplayConfig)
    ensures r.metricsConfigs.Some?
    ensures c.metricsConfigs.None? ==> r.metricsConfigs == Some([])
    ensures c.metricsConfigs.Some? ==> r == c
    ensures r.(metricsConfigs := c.metricsConfigs) == c
  {
    if c.metricsConfigs.None? then c.(metricsConfigs := Some([])) else c
  }

  /** Normalising twice is normalising once. */
  lemma PostInitIdempotent(c: DisplayConfig)
    ensures PostInit(PostInit(c)) == PostInit(c)
  {
  }

  /** `DisplayConfig(background_path, background_type)` with every other
      field left to its default, as the constructor builds it (including the
      post-initialisation step). */
  function NewDisplayConfig(path: string, kind: BackgroundType): (r: DisplayConfig)
    ensures r.backgroundPath == path && r.backgroundType == kind
    ensures r.outputWidth == 320 && r.outputHeight == 240
    ensures r.rotation == 0 && r.scalePct == 100
    ensures r.windowTitle.None? && r.captureFps == 30
    ensures r.globalFontPath.None? && r.foregroundImagePath.None?
    ensures r.foregroundPosition == Point(0, 0) && r.foregroundAlpha == 1.0
    ensures r.dateConfig.None? && r.timeConfig.None?
    ensures r.metricsConfigs == Some([])
  {
    PostInit(DisplayConfig(path, kind, 320, 240, 0, 100, None, None, Point(0, 0), 1.0,
                           None, 30, None, None, None))
  }

  /** The metrics list once the record is constructed. */
  function Metrics(c: DisplayConfig): seq<MetricConfig> {
    PostInit(c).metricsConfigs.value
  }
}

/** The window layout record of src/main/java/se/itello/commandrunner/gui/WindowLayout.java: sizes,
    divider positions, column widths, maximised flag, theme and status-bar flag, with its fluent
    setters and its JSON form. The divider positions are doubles, kept as opaque reals; the
    `(float)` narrowing the JSON constructor applies to them is the parameter `toFloat`. */
module WindowLayouts {
  import opened Wrappers
  import opened Json
  import Status

  const DARK_THEME := "DARK_THEME"
  const LIGHT_THEME := "LIGHT_THEME"

  const WINDOW_WIDTH := "WINDOW_WIDTH"
  const WINDOW_HEIGHT := "WINDOW_HEIGHT"
  const IS_MAXIMIZED := "IS_MAXIMIZED"
  const VERTICAL_DIVIDER_POSITION := "VERTICAL_DIVIDER_POSITION"
  const HORIZONTAL_DIVIDER_POSITION := "HORIZONTAL_DIVIDER_POSITION"
  const TABLE_COMMAND_COLUMN_WIDTH := "TABLE_COMMAND_COLUMN_WIDTH"
  const TABLE_COMMENT_COLUMN_WIDTH := "TABLE_COMMENT_COLUMN_WIDTH"
  const TABLE_DIRECTORY_COLUMN_WIDTH := "TABLE_DIRECTORY_COLUMN_WIDTH"
  const THEME := "THEME"
  const SHOW_STATUS_BAR := "SHOW_STATUS_BAR"

  type Int32 = Status.Int32

  datatype LayoutState = LayoutState(
    windowWidth: Int32, windowHeight: Int32,
    verticalDividerPosition: real, horizontalDividerPosition: real,
    tableCommandColumnWidth: Int32, tableDirectoryColumnWidth: Int32, tableCommentColumnWidth: Int32,
    maximized: bool, theme: Option<string>, showStatusBar: bool)

  /** The keys `jsonObject()` always writes. */
  const LAYOUT_KEYS: set<string> :=
    {WINDOW_WIDTH, WINDOW_HEIGHT, VERTICAL_DIVIDER_POSITION, HORIZONTAL_DIVIDER_POSITION,
     TABLE_COMMAND_COLUMN_WIDTH, TABLE_DIRECTORY_COLUMN_WIDTH, TABLE_COMMENT_COLUMN_WIDTH,
     IS_MAXIMIZED, SHOW_STATUS_BAR}

  /** `jsonObject()`: one entry per field. A `null` theme is not stored (`put` with `null` removes
      the key). */
  function LayoutJson(s: LayoutState): (r: map<string, Json>)
    ensures s.theme.Some? ==> r.Keys == LAYOUT_KEYS + {THEME}
    ensures s.theme.None? ==> r.Keys == LAYOUT_KEYS
  {
    var m := map[WINDOW_WIDTH := JNumber(s.windowWidth), WINDOW_HEIGHT := JNumber(s.windowHeight),
                 VERTICAL_DIVIDER_POSITION := JReal(s.verticalDividerPosition),
                 HORIZONTAL_DIVIDER_POSITION := JReal(s.horizontalDividerPosition),
                 TABLE_COMMAND_COLUMN_WIDTH := JNumber(s.tableCommandColumnWidth),
                 TABLE_DIRECTORY_COLUMN_WIDTH := JNumber(s.tableDirectoryColumnWidth),
                 TABLE_COMMENT_COLUMN_WIDTH := JNumber(s.tableCommentColumnWidth),
                 IS_MAXIMIZED := JBool(s.maximized), SHOW_STATUS_BAR := JBool(s.showStatusBar)];
    match s.theme
    case Some(t) => m[THEME := JString(t)]
    case None => m
  }

  /** The theme key is written exactly when there is a theme. */
  lemma ThemeKeyOnlyWithTheme(s: LayoutState)
    ensures THEME in LayoutJson(s) <==> s.theme.Some?
  {
    assert THEME !in LAYOUT_KEYS;
  }

  /** The JSON constructor: the getters in the source's order; the first one that fails decides. */
  function LayoutFromJson(obj: map<string, Json>, toFloat: real -> real): Got<LayoutState>
  {
    match GetInt(obj, WINDOW_WIDTH)
    case Threw(e) => Threw(e)
    case Got(width) =>
    match GetInt(obj, WINDOW_HEIGHT)
    case Threw(e) => Threw(e)
    case Got(height) =>
    match GetDouble(obj, VERTICAL_DIVIDER_POSITION)
    case Threw(e) => Threw(e)
    case Got(vertical) =>
    match GetDouble(obj, HORIZONTAL_DIVIDER_POSITION)
    case Threw(e) => Threw(e)
    case Got(horizontal) =>
    match GetInt(obj, TABLE_COMMAND_COLUMN_WIDTH)
    case Threw(e) => Threw(e)
    case Got(commandWidth) =>
    match GetInt(obj, TABLE_DIRECTORY_COLUMN_WIDTH)
    case Threw(e) => Threw(e)
    case Got(directoryWidth) =>
    match GetInt(obj, TABLE_COMMENT_COLUMN_WIDTH)
    case Threw(e) => Threw(e)
    case Got(commentWidth) =>
    match GetBoolean(obj, IS_MAXIMIZED)
    case Threw(e) => Threw(e)
    case Got(maximized) =>
    match GetString(obj, THEME)
    case Threw(e) => Threw(e)
    case Got(theme) =>
    match GetBoolean(obj, SHOW_STATUS_BAR)
    case Threw(e) => Threw(e)
    case Got(showStatusBar) =>
      Got(LayoutState(width, height, toFloat(vertical), toFloat(horizontal), commandWidth, directoryWidth,
                      commentWidth, maximized, Some(theme), showStatusBar))
  }

  /** Reading back `jsonObject()` restores every int, boolean and string field exactly; the divider
      positions come back through the float narrowing. A layout without a theme cannot be read
      back: `getString(THEME)` throws. */
  lemma LayoutJsonRoundTrip(s: LayoutState, toFloat: real -> real)
    ensures s.theme.Some? ==>
              LayoutFromJson(LayoutJson(s), toFloat)
              == Got(s.(verticalDividerPosition := toFloat(s.verticalDividerPosition),
                        horizontalDividerPosition := toFloat(s.horizontalDividerPosition)))
    ensures s.theme.None? ==> LayoutFromJson(LayoutJson(s), toFloat) == Threw(JSONException)
  {
    var m := LayoutJson(s);
    LayoutJsonLookups(s);
    LayoutJsonFlagLookups(s);
    assert GetInt(m, WINDOW_WIDTH) == Got(s.windowWidth);
    assert GetInt(m, WINDOW_HEIGHT) == Got(s.windowHeight);
    assert GetDouble(m, VERTICAL_DIVIDER_POSITION) == Got(s.verticalDividerPosition);
    assert GetDouble(m, HORIZONTAL_DIVIDER_POSITION) == Got(s.horizontalDividerPosition);
    assert GetInt(m, TABLE_COMMAND_COLUMN_WIDTH) == Got(s.tableCommandColumnWidth);
    assert GetInt(m, TABLE_DIRECTORY_COLUMN_WIDTH) == Got(s.tableDirectoryColumnWidth);
    assert GetInt(m, TABLE_COMMENT_COLUMN_WIDTH) == Got(s.tableCommentColumnWidth);
    assert GetBoolean(m, IS_MAXIMIZED) == Got(s.maximized);
    assert GetBoolean(m, SHOW_STATUS_BAR) == Got(s.showStatusBar);
  }

  /** What the size, divider and column keys of `jsonObject()` hold. */
  lemma LayoutJsonLookups(s: LayoutState)
    ensures var m := LayoutJson(s);
      && m[WINDOW_WIDTH] == JNumber(s.windowWidth) && m[WINDOW_HEIGHT] == JNumber(s.windowHeight)
      && m[VERTICAL_DIVIDER_POSITION] == JReal(s.verticalDividerPosition)
      && m[HORIZONTAL_DIVIDER_POSITION] == JReal(s.horizontalDividerPosition)
      && m[TABLE_COMMAND_COLUMN_WIDTH] == JNumber(s.tableCommandColumnWidth)
      && m[TABLE_DIRECTORY_COLUMN_WIDTH] == JNumber(s.tableDirectoryColumnWidth)
      && m[TABLE_COMMENT_COLUMN_WIDTH] == JNumber(s.tableCommentColumnWidth)
  {
  }

  /** What the flag and theme keys of `jsonObject()` hold. */
  lemma LayoutJsonFlagLookups(s: LayoutState)
    ensures var m := LayoutJson(s);
      && m[IS_MAXIMIZED] == JBool(s.maximized) && m[SHOW_STATUS_BAR] == JBool(s.showStatusBar)
      && (s.theme.Some? ==> m[THEME] == JString(s.theme.value))
  {
  }

  lemma ThemeIsRead(obj: map<string, Json>, toFloat: real -> real)
    requires LayoutFromJson(obj, toFloat).Got?
    ensures LayoutFromJson(obj, toFloat).value.theme.Some?
  {
  }

  class WindowLayout {
    var windowWidth: Int32
    var windowHeight: Int32
    var verticalDividerPosition: real
    var horizontalDividerPosition: real
    var tableCommandColumnWidth: Int32
    var tableDirectoryColumnWidth: Int32
    var tableCommentColumnWidth: Int32
    var maximized: bool
    var theme: Option<string>
    var showStatusBar: bool

    function State(): LayoutState
      reads this
    {
      LayoutState(windowWidth, windowHeight, verticalDividerPosition, horizontalDividerPosition,
                  tableCommandColumnWidth, tableDirectoryColumnWidth, tableCommentColumnWidth,
                  maximized, theme, showStatusBar)
    }

    /** The private constructor: Java's field defaults. */
    constructor ()
      ensures State() == LayoutState(0, 0, 0.0, 0.0, 0, 0, 0, false, None, false)
    {
      windowWidth := 0;
      windowHeight := 0;
      verticalDividerPosition := 0.0;
      horizontalDividerPosition := 0.0;
      tableCommandColumnWidth := 0;
      tableDirectoryColumnWidth := 0;
      tableCommentColumnWidth := 0;
      maximized := false;
      theme := None;
      showStatusBar := false;
    }

    method SetWindowWidth(value: Int32) returns (self: WindowLayout)
      modifies this`windowWidth
      ensures self == this && State() == old(State()).(windowWidth := value)
    {
      windowWidth := value;
      self := this;
    }

    method SetWindowHeight(value: Int32) returns (self: WindowLayout)
      modifies this`windowHeight
      ensures self == this && State() == old(State()).(windowHeight := value)
    {
      windowHeight := value;
      self := this;
    }

    method SetVerticalDividerPosition(value: real) returns (self: WindowLayout)
      modifies this`verticalDividerPosition
      ensures self == this && State() == old(State()).(verticalDividerPosition := value)
    {
      verticalDividerPosition := value;
      self := this;
    }

    method SetHorizontalDividerPosition(value: real) returns (self: WindowLayout)
      modifies this`horizontalDividerPosition
      ensures self == this && State() == old(State()).(horizontalDividerPosition := value)
    {
      horizontalDividerPosition := value;
      self := this;
    }

    method SetTableCommandColumnWidth(value: Int32) returns (self: WindowLayout)
      modifies this`tableCommandColumnWidth
      ensures self == this && State() == old(State()).(tableCommandColumnWidth := value)
    {
      tableCommandColumnWidth := value;
      self := this;
    }

    method SetTableDirectoryColumnWidth(value: Int32) returns (self: WindowLayout)
      modifies this`tableDirectoryColumnWidth
      ensures self == this && State() == old(State()).(tableDirectoryColumnWidth := value)
    {
      tableDirectoryColumnWidth := value;
      self := this;
    }

    method SetTableCommentColumnWidth(value: Int32) returns (self: WindowLayout)
      modifies this`tableCommentColumnWidth
      ensures self == this && State() == old(State()).(tableCommentColumnWidth := value)
    {
      tableCommentColumnWidth := value;
      self := this;
    }

    method SetMaximized(value: bool) returns (self: WindowLayout)
      modifies this`maximized
      ensures self == this && State() == old(State()).(maximized := value)
    {
      maximized := value;
      self := this;
    }

    method SetTheme(value: string) returns (self: WindowLayout)
      modifies this`theme
      ensures self == this && State() == old(State()).(theme := Some(value))
    {
      theme := Some(value);
      self := this;
    }

    method SetShowStatusBar(value: bool) returns (self: WindowLayout)
      modifies this`showStatusBar
      ensures self == this && State() == old(State()).(showStatusBar := value)
    {
      showStatusBar := value;
      self := this;
    }

    function JsonObject(): (r: map<string, Json>)
      reads this
      ensures r == LayoutJson(State())
    {
      LayoutJson(State())
    }
  }

  /** `DEFAULT_LAYOUT`: 1040 by 600, columns 490/250/100, not maximised, light theme, status bar
      shown; the two divider constants `0.75f` and `0.83f`, widened to double, are passed in. */
  method DefaultLayout(verticalDivider: real, horizontalDivider: real) returns (layout: WindowLayout)
    ensures fresh(layout)
    ensures layout.State() == LayoutState(1040, 600, verticalDivider, horizontalDivider, 490, 250, 100,
                                          false, Some(LIGHT_THEME), true)
  {
    layout := new WindowLayout();
    layout := layout.SetWindowWidth(1040);
    layout := layout.SetWindowHeight(600);
    layout := layout.SetVerticalDividerPosition(verticalDivider);
    layout := layout.SetHorizontalDividerPosition(horizontalDivider);
    layout := layout.SetTableCommandColumnWidth(490);
    layout := layout.SetTableDirectoryColumnWidth(250);
    layout := layout.SetTableCommentColumnWidth(100);
    layout := layout.SetMaximized(false);
    layout := layout.SetTheme(LIGHT_THEME);
    layout := layout.SetShowStatusBar(true);
  }

  /** The setter chain of the JSON constructor, applied to values already read. */
  method Build(s: LayoutState) returns (layout: WindowLayout)
    requires s.theme.Some?
    ensures fresh(layout) && layout.State() == s
  {
    layout := new WindowLayout();
    layout := layout.SetWindowWidth(s.windowWidth);
    layout := layout.SetWindowHeight(s.windowHeight);
    layout := layout.SetVerticalDividerPosition(s.verticalDividerPosition);
    layout := layout.SetHorizontalDividerPosition(s.horizontalDividerPosition);
    layout := layout.SetTableCommandColumnWidth(s.tableCommandColumnWidth);
    layout := layout.SetTableDirectoryColumnWidth(s.tableDirectoryColumnWidth);
    layout := layout.SetTableCommentColumnWidth(s.tableCommentColumnWidth);
    layout := layout.SetMaximized(s.maximized);
    layout := layout.SetTheme(s.theme.value);
    layout := layout.SetShowStatusBar(s.showStatusBar);
  }

  /** `new WindowLayout(jsonObject)`: the setter chain fed by the getters; a failing getter
      throws out of the constructor, so no layout comes back. */
  method FromJson(obj: map<string, Json>, toFloat: real -> real) returns (r: Got<WindowLayout>)
    ensures r.Got? <==> LayoutFromJson(obj, toFloat).Got?
    ensures r.Threw? ==> r == Threw(LayoutFromJson(obj, toFloat).exception)
    ensures r.Got? ==> fresh(r.value) && r.value.State() == LayoutFromJson(obj, toFloat).value
  {
    var spec := LayoutFromJson(obj, toFloat);
    if spec.Threw? {
      return Threw(spec.exception);
    }
    assert spec.value.theme.Some? by { ThemeIsRead(obj, toFloat); }
    var layout := Build(spec.value);
    r := Got(layout);
  }
}

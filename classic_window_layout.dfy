/** The earlier window layout record of src/CommandRunner/gui/WindowLayout.java: window size,
    divider positions and column widths only, with a taller default window. The keys are the
    ones of the later layout, so they are shared with it. */
module ClassicWindowLayouts {
  import opened Json
  import opened WindowLayouts

  datatype ClassicState = ClassicState(
    windowWidth: Int32, windowHeight: Int32,
    verticalDividerPosition: real, horizontalDividerPosition: real,
    tableCommandColumnWidth: Int32, tableDirectoryColumnWidth: Int32, tableCommentColumnWidth: Int32)

  /** `jsonObject()`: the layout keys without the maximised and status-bar flags, and no theme. */
  function ClassicJson(s: ClassicState): (r: map<string, Json>)
    ensures r.Keys == LAYOUT_KEYS - {IS_MAXIMIZED, SHOW_STATUS_BAR}
    ensures THEME !in r
  {
    map[WINDOW_WIDTH := JNumber(s.windowWidth), WINDOW_HEIGHT := JNumber(s.windowHeight),
        VERTICAL_DIVIDER_POSITION := JReal(s.verticalDividerPosition),
        HORIZONTAL_DIVIDER_POSITION := JReal(s.horizontalDividerPosition),
        TABLE_COMMAND_COLUMN_WIDTH := JNumber(s.tableCommandColumnWidth),
        TABLE_DIRECTORY_COLUMN_WIDTH := JNumber(s.tableDirectoryColumnWidth),
        TABLE_COMMENT_COLUMN_WIDTH := JNumber(s.tableCommentColumnWidth)]
  }

  /** The JSON constructor: seven getters in the source's order; the first failure decides. */
  function ClassicFromJson(obj: map<string, Json>, toFloat: real -> real): Got<ClassicState>
  {
    match GetInt(obj, WINDOW_WIDTH)
    case Threw(e) => Threw(e)
    case Got(width) =>
    match GetInt(obj, WINDOW_HEIGHT)
    case Threw(e) => Threw(e)
    case Got(height) =>
    match GetDouble(obj, VERTICAL_DIVIDER_POSITION)
    case Threw(e) => Threw(e)
    case Got(vertical) =>
    match GetDouble(obj, HORIZONTAL_DIVIDER_POSITION)
    case Threw(e) => Threw(e)
    case Got(horizontal) =>
    match GetInt(obj, TABLE_COMMAND_COLUMN_WIDTH)
    case Threw(e) => Threw(e)
    case Got(commandWidth) =>
    match GetInt(obj, TABLE_DIRECTORY_COLUMN_WIDTH)
    case Threw(e) => Threw(e)
    case Got(directoryWidth) =>
    match GetInt(obj, TABLE_COMMENT_COLUMN_WIDTH)
    case Threw(e) => Threw(e)
    case Got(commentWidth) =>
      Got(ClassicState(width, height, toFloat(vertical), toFloat(horizontal),
                       commandWidth, directoryWidth, commentWidth))
  }

  /** Reading back `jsonObject()` restores the five ints exactly and the two dividers through the
      float narrowing. */
  lemma ClassicJsonRoundTrip(s: ClassicState, toFloat: real -> real)
    ensures ClassicFromJson(ClassicJson(s), toFloat)
            == Got(s.(verticalDividerPosition := toFloat(s.verticalDividerPosition),
                      horizontalDividerPosition := toFloat(s.horizontalDividerPosition)))
  {
    var m := ClassicJson(s);
    assert m[WINDOW_WIDTH] == JNumber(s.windowWidth) && m[WINDOW_HEIGHT] == JNumber(s.windowHeight);
    assert m[VERTICAL_DIVIDER_POSITION] == JReal(s.verticalDividerPosition);
    assert m[HORIZONTAL_DIVIDER_POSITION] == JReal(s.horizontalDividerPosition);
    assert m[TABLE_COMMAND_COLUMN_WIDTH] == JNumber(s.tableCommandColumnWidth);
    assert m[TABLE_DIRECTORY_COLUMN_WIDTH] == JNumber(s.tableDirectoryColumnWidth);
    assert m[TABLE_COMMENT_COLUMN_WIDTH] == JNumber(s.tableCommentColumnWidth);
  }

  /** A layout written by the later format is readable by this one: the extra keys are ignored. */
  lemma ClassicReadsLaterLayout(s: LayoutState, toFloat: real -> real)
    ensures ClassicFromJson(LayoutJson(s), toFloat)
            == Got(ClassicState(s.windowWidth, s.windowHeight, toFloat(s.verticalDividerPosition),
                                toFloat(s.horizontalDividerPosition), s.tableCommandColumnWidth,
                                s.tableDirectoryColumnWidth, s.tableCommentColumnWidth))
  {
    var m := LayoutJson(s);
    LayoutJsonLookups(s);
    assert GetInt(m, WINDOW_WIDTH) == Got(s.windowWidth);
    assert GetInt(m, WINDOW_HEIGHT) == Got(s.windowHeight);
    assert GetDouble(m, VERTICAL_DIVIDER_POSITION) == Got(s.verticalDividerPosition);
    assert GetDouble(m, HORIZONTAL_DIVIDER_POSITION) == Got(s.horizontalDividerPosition);
    assert GetInt(m, TABLE_COMMAND_COLUMN_WIDTH) == Got(s.tableCommandColumnWidth);
    assert GetInt(m, TABLE_DIRECTORY_COLUMN_WIDTH) == Got(s.tableDirectoryColumnWidth);
    assert GetInt(m, TABLE_COMMENT_COLUMN_WIDTH) == Got(s.tableCommentColumnWidth);
  }

  class ClassicWindowLayout {
    var windowWidth: Int32
    var windowHeight: Int32
    var verticalDividerPosition: real
    var horizontalDividerPosition: real
    var tableCommandColumnWidth: Int32
    var tableDirectoryColumnWidth: Int32
    var tableCommentColumnWidth: Int32

    function State(): ClassicState
      reads this
    {
      ClassicState(windowWidth, windowHeight, verticalDividerPosition, horizontalDividerPosition,
                   tableCommandColumnWidth, tableDirectoryColumnWidth, tableCommentColumnWidth)
    }

    /** The private constructor: Java's field defaults. */
    constructor ()
      ensures State() == ClassicState(0, 0, 0.0, 0.0, 0, 0, 0)
    {
      windowWidth := 0;
      windowHeight := 0;
      verticalDividerPosition := 0.0;
      horizontalDividerPosition := 0.0;
      tableCommandColumnWidth := 0;
      tableDirectoryColumnWidth := 0;
      tableCommentColumnWidth := 0;
    }

    method SetWindowWidth(value: Int32) returns (self: ClassicWindowLayout)
      modifies this`windowWidth
      ensures self == this && State() == old(State()).(windowWidth := value)
    {
      windowWidth := value;
      self := this;
    }

    method SetWindowHeight(value: Int32) returns (self: ClassicWindowLayout)
      modifies this`windowHeight
      ensures self == this && State() == old(State()).(windowHeight := value)
    {
      windowHeight := value;
      self := this;
    }

    method SetVerticalDividerPosition(value: real) returns (self: ClassicWindowLayout)
      modifies this`verticalDividerPosition
      ensures self == this && State() == old(State()).(verticalDividerPosition := value)
    {
      verticalDividerPosition := value;
      self := this;
    }

    method SetHorizontalDividerPosition(value: real) returns (self: ClassicWindowLayout)
      modifies this`horizontalDividerPosition
      ensures self == this && State() == old(State()).(horizontalDividerPosition := value)
    {
      horizontalDividerPosition := value;
      self := this;
    }

    method SetTableCommandColumnWidth(value: Int32) returns (self: ClassicWindowLayout)
      modifies this`tableCommandColumnWidth
      ensures self == this && State() == old(State()).(tableCommandColumnWidth := value)
    {
      tableCommandColumnWidth := value;
      self := this;
    }

    method SetTableDirectoryColumnWidth(value: Int32) returns (self: ClassicWindowLayout)
      modifies this`tableDirectoryColumnWidth
      ensures self == this && State() == old(State()).(tableDirectoryColumnWidth := value)
    {
      tableDirectoryColumnWidth := value;
      self := this;
    }

    method SetTableCommentColumnWidth(value: Int32) returns (self: ClassicWindowLayout)
      modifies this`tableCommentColumnWidth
      ensures self == this && State() == old(State()).(tableCommentColumnWidth := value)
    {
      tableCommentColumnWidth := value;
      self := this;
    }

    function JsonObject(): (r: map<string, Json>)
      reads this
      ensures r == ClassicJson(State())
    {
      ClassicJson(State())
    }
  }

  /** `DEFAULT_LAYOUT`: 1040 by 806, columns 490/250/100; the divider constants `0.75f` and
      `0.83f`, widened to double, are passed in. */
  method ClassicDefaultLayout(verticalDivider: real, horizontalDivider: real)
    returns (layout: ClassicWindowLayout)
    ensures fresh(layout)
    ensures layout.State() == ClassicState(1040, 806, verticalDivider, horizontalDivider, 490, 250, 100)
  {
    layout := new ClassicWindowLayout();
    layout := layout.SetWindowWidth(1040);
    layout := layout.SetWindowHeight(806);
    layout := layout.SetVerticalDividerPosition(verticalDivider);
    layout := layout.SetHorizontalDividerPosition(horizontalDivider);
    layout := layout.SetTableCommandColumnWidth(490);
    layout := layout.SetTableDirectoryColumnWidth(250);
    layout := layout.SetTableCommentColumnWidth(100);
  }

  /** The setter chain of the JSON constructor, applied to values already read. */
  method BuildClassic(s: ClassicState) returns (layout: ClassicWindowLayout)
    ensures fresh(layout) && layout.State() == s
  {
    layout := new ClassicWindowLayout();
    layout := layout.SetWindowWidth(s.windowWidth);
    layout := layout.SetWindowHeight(s.windowHeight);
    layout := layout.SetVerticalDividerPosition(s.verticalDividerPosition);
    layout := layout.SetHorizontalDividerPosition(s.horizontalDividerPosition);
    layout := layout.SetTableCommandColumnWidth(s.tableCommandColumnWidth);
    layout := layout.SetTableDirectoryColumnWidth(s.tableDirectoryColumnWidth);
    layout := layout.SetTableCommentColumnWidth(s.tableCommentColumnWidth);
  }

  /** `new WindowLayout(jsonObject)`: a failing getter throws out of the constructor. */
  method ClassicFromJsonObject(obj: map<string, Json>, toFloat: real -> real)
    returns (r: Got<ClassicWindowLayout>)
    ensures r.Got? <==> ClassicFromJson(obj, toFloat).Got?
    ensures r.Threw? ==> r == Threw(ClassicFromJson(obj, toFloat).exception)
    ensures r.Got? ==> fresh(r.value) && r.value.State() == ClassicFromJson(obj, toFloat).value
  {
    var spec := ClassicFromJson(obj, toFloat);
    if spec.Threw? {
      return Threw(spec.exception);
    }
    var layout := BuildClassic(spec.value);
    r := Got(layout);
  }
}

/** Sizing of the message box: the chrome budgets, the height of the block
    of input fields, and the optimal width and height for a text on a
    screen of a given width (cmd/nerdlog/message_view.go). */
module Sizing {
  import opened TextMetrics

  /** One input field of the dialog: its label (possibly empty) and whether
      its input is masked. */
  datatype FieldSpec = FieldSpec(labelText: string, isPassword: bool)

  datatype Size = Size(width: int, height: int)

  /** Columns taken by the frame's border and padding. */
  const ExtraWidth: int := 4
  /** Rows taken by the border, the padding and the button row. */
  const BaseExtraHeight: int := 6
  /** A button is padded by two columns on each side ... */
  const ButtonPadding: int := 2
  /** ... and is never narrower than ten columns. */
  const MinButtonWidth: int := 10

  /** GetOptimalMessageViewSize: the width of the longest line plus the
      chrome, but never wider than the screen; the chrome height plus the
      rows the trimmed text needs when wrapped inside the chrome. */
  function OptimalMessageViewSize(screenWidth: int, extraWidth: int, extraHeight: int, text: string): (r: Size)
    ensures r.width <= screenWidth
    ensures r.width <= MaxLineLength(text) + extraWidth
    ensures r.width == screenWidth || r.width == MaxLineLength(text) + extraWidth
    ensures r.height >= extraHeight
    ensures r.height == extraHeight <==> screenWidth <= extraWidth
    ensures screenWidth > extraWidth ==> r.height >= extraHeight + |Split(TrimSpace(text))|
  {
    NumLinesLowerBound(text, screenWidth - extraWidth);
    var width := MaxLineLength(text) + extraWidth;
    var clamped := if width > screenWidth then screenWidth else width;
    Size(clamped, extraHeight + NumLines(text, screenWidth - extraWidth))
  }

  /** When the whole text fits on the screen beside the chrome, the box is
      exactly as wide as the longest line plus the chrome, and exactly one
      row is estimated per line of the trimmed text. */
  lemma OptimalSizeWhenTextFits(screenWidth: int, extraWidth: int, extraHeight: int, text: string)
    requires MaxLineLength(text) + extraWidth <= screenWidth
    requires extraWidth < screenWidth
    ensures OptimalMessageViewSize(screenWidth, extraWidth, extraHeight, text)
         == Size(MaxLineLength(text) + extraWidth, extraHeight + |Split(TrimSpace(text))|)
  {
    NumLinesWhenFits(text, screenWidth - extraWidth);
  }

  lemma HelloMeasured()
    ensures TrimSpace("hello") == "hello"
    ensures MaxLineLength("hello") == 5
  {
    var t: string := "hello";
    assert LeadingSpaces(t) == 0;
    assert t[0..] == t;
    assert TrailingSpaces(t) == 0;
    SplitPlain(t);
  }

  lemma OptimalSizeExample()
    ensures OptimalMessageViewSize(80, 4, 6, "hello") == Size(9, 7)
  {
    var t: string := "hello";
    HelloMeasured();
    assert '\n' !in t;
    NumLinesOfOneLine(t, 76);
    assert LineRows(5, 76) == 1;
  }

  /** Rows taken by the input fields: one per field, one more for each
      non-empty label, and one spacer row before every field but the first. */
  function FieldsHeight(fields: seq<FieldSpec>): nat
  {
    if fields == [] then 0
    else
      var i := |fields| - 1;
      FieldsHeight(fields[..i]) + (if i > 0 then 1 else 0) + 1 + (if fields[i].labelText != "" then 1 else 0)
  }

  /** Number of fields with a non-empty label. */
  function LabeledCount(fields: seq<FieldSpec>): (r: nat)
    ensures r <= |fields|
  {
    if fields == [] then 0
    else LabeledCount(fields[..|fields| - 1]) + (if fields[|fields| - 1].labelText != "" then 1 else 0)
  }

  /** The field block of n >= 1 fields is n field rows, n - 1 spacers and
      one row per label. */
  lemma {:induction false} FieldsHeightClosedForm(fields: seq<FieldSpec>)
    ensures FieldsHeight(fields) == if fields == [] then 0 else 2 * |fields| - 1 + LabeledCount(fields)
  {
    if fields != [] {
      FieldsHeightClosedForm(fields[..|fields| - 1]);
    }
  }

  /** No fields take no rows; n >= 1 fields take between n and 3n - 1. */
  lemma FieldsHeightBounds(fields: seq<FieldSpec>)
    ensures fields == [] ==> FieldsHeight(fields) == 0
    ensures fields != [] ==> |fields| <= FieldsHeight(fields) <= 3 * |fields| - 1
  {
    FieldsHeightClosedForm(fields);
  }

  /** The optimal size of the whole dialog (getOptimalSize): the fixed
      chrome plus the field block around the text. */
  function OptimalDialogSize(fields: seq<FieldSpec>, screenWidth: int, text: string): Size
  {
    OptimalMessageViewSize(screenWidth, ExtraWidth, BaseExtraHeight + FieldsHeight(fields), text)
  }

  /** getOptimalSize: sums the field block's rows in a loop, then asks for
      the optimal size with that block added to the chrome. */
  method GetOptimalSize(fields: seq<FieldSpec>, screenWidth: int, text: string) returns (size: Size)
    ensures size == OptimalDialogSize(fields, screenWidth, text)
    ensures size.width <= screenWidth
    ensures size.height >= BaseExtraHeight + FieldsHeight(fields)
  {
    var inputFieldsHeight := 0;
    for i := 0 to |fields|
      invariant inputFieldsHeight == FieldsHeight(fields[..i])
    {
      assert fields[..i + 1][..i] == fields[..i];
      if i > 0 {
        inputFieldsHeight := inputFieldsHeight + 1;
      }
      inputFieldsHeight := inputFieldsHeight + 1;
      if fields[i].labelText != "" {
        inputFieldsHeight := inputFieldsHeight + 1;
      }
    }
    assert fields[..|fields|] == fields;
    var extraWidth := ExtraWidth;
    var extraHeight := BaseExtraHeight + inputFieldsHeight;
    size := OptimalMessageViewSize(screenWidth, extraWidth, extraHeight, text);
  }

  /** Columns given to a button: its label with two columns of padding on
      each side, widened to the minimum when that is narrower. */
  function ButtonWidth(caption: string): (r: int)
    ensures r >= MinButtonWidth
    ensures r - 2 * ButtonPadding >= |caption|
    ensures r == MinButtonWidth || r - 2 * ButtonPadding == |caption|
  {
    var size := |caption| + 2 * ButtonPadding;
    if size < MinButtonWidth then MinButtonWidth else size
  }
}

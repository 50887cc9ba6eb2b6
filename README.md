# nerdlog message view: a verified model

nerdlog's terminal UI shows prompts, confirmations and small forms in a
modal dialog, the `MessageView` of `cmd/nerdlog/message_view.go`. This
project models the logic under that dialog's widgets and proves what it
promises:

- **Text measurement** (module `TextMetrics`). This covers:
  - the longest line of a text (`getMaxLineLength`);
  - the estimated number of screen rows a trimmed, wrapped text takes
    (`getNumLines`);
  - the two library calls these rest on, whitespace trimming and
    splitting on `'\n'`.

  Splitting is tied to joining by a proved round trip in both directions.
- **Autosizing** (module `Sizing`). This covers:
  - the optimal dialog size for a text under a width and height budget
    (`GetOptimalMessageViewSize`);
  - the height of the input-field block and the dialog's own budget of
    4 columns and 6 rows plus the fields (`getOptimalSize`);
  - the width of a button column.
- **The focus ring** (module `FocusRing`). It lists the input fields, then
  the buttons. The tab handler's scan finds the current element and its
  cyclic neighbours. Tab and Backtab are consumed and move the focus, and
  every other key is passed on.
- **The revert-on-blur state** (module `RevertState`). It is a single
  optional pending revert, armed by `SetButtonLabel` and consumed by the
  blur handler that every button carries.
- **The dialog controller** (module `MessageViewModel`, class
  `MessageView`). It holds the committed size, the shown text, the button
  labels and the pending revert. Its constructor applies the width and
  height defaults and builds the ring. `SetText` only ever grows the
  dialog. The two input-capture closures combine the Esc callback, the
  tab handler and the field callback.

The source's loops are methods proved against specification functions:
`getMaxLineLength`, `getNumLines`, the field loop of `getOptimalSize`, the
tab handler's scan, and the constructor's ring and button loops. The
properties of those functions are proved as lemmas. The mutating
operations are methods of a class whose state changes are stated in full.

The screen width of the host view is a parameter. The dialog does not
call the host to resize the modal or to move the focus. It returns what
it would request, as `Option<Size>` and as the element to focus.

Where the code and the comments disagree, the model follows the code. The
comment on `Width, Height` (line 32) says they default to 40 and 10. The
constructor (lines 148-156) replaces a 0 with the optimal size instead.
`getOptimalSize` also measures the untrimmed text for the width but the
trimmed text for the height, because `getNumLines` trims and
`getMaxLineLength` does not. `OptimalMessageViewSize` keeps that
asymmetry, and `MaxLineLengthTrimSpace` shows that trimming never widens
the text.

Behaviour worth knowing, proved by `LastRevertWins`: a second
revert-on-blur label change replaces the first pending revert without
applying it. The first button then keeps its temporary label after the
blur.

A button press reports the label the button was created with and its
index (lines 230-233), not the label it shows at the time. `PressedArgs`
computes these arguments. `RevertScenario` shows a button that reads
"Copied" after `SetButtonLabel` but still reports "Copy" when pressed.

## Model

| member | source | states |
|---|---|---|
| TextMetrics.TrimSpace | cmd/nerdlog/message_view.go:109 | the result is the infix of the input that starts after its leading white space and leaves only white space behind; it neither starts nor ends with white space |
| TextMetrics.TrimSpaceIdempotent | cmd/nerdlog/message_view.go:109 | trimming a trimmed text changes nothing |
| TextMetrics.Split | cmd/nerdlog/message_view.go:110 | splitting on '\n' always yields at least one segment, even for the empty text |
| TextMetrics.SplitSegmentsPlain | cmd/nerdlog/message_view.go:110 | no segment of a split contains the '\n' separator |
| TextMetrics.SplitConcat | cmd/nerdlog/message_view.go:110 | the segments of t+u are those of t and of u, with the last of t and the first of u run together |
| TextMetrics.JoinSplit | cmd/nerdlog/message_view.go:110 | joining the segments of a text with '\n' gives back the text |
| TextMetrics.SplitJoin | cmd/nerdlog/message_view.go:110 | splitting the '\n'-join of newline-free segments gives back the segments |
| TextMetrics.MaxLen | cmd/nerdlog/message_view.go:84-97 | the longest-line length bounds every segment and is reached by one, and is 0 for no segments |
| TextMetrics.GetMaxLineLength | cmd/nerdlog/message_view.go:80-100 | the scan over the text returns the length of the longest '\n'-separated segment, the unterminated last one included, and never more than the text's length |
| TextMetrics.MaxLineLengthBound | cmd/nerdlog/message_view.go:80-100 | no line is longer than the whole text |
| TextMetrics.MaxLineLengthExamples | cmd/nerdlog/message_view.go:80-100 | the empty text has longest line 0, and "ab\ncde\nf" has 3 |
| TextMetrics.MaxLineLengthConcat | cmd/nerdlog/message_view.go:80-100 | neither part of a concatenation has a longer line than the whole |
| TextMetrics.MaxLineLengthInfix | cmd/nerdlog/message_view.go:80-100 | no infix of a text has a longer line than the text |
| TextMetrics.MaxLineLengthTrimSpace | cmd/nerdlog/message_view.go:131-136 | trimming never lengthens the longest line, so the untrimmed width measure is at least the trimmed one |
| TextMetrics.LineRows | cmd/nerdlog/message_view.go:113-118 | a line of length len takes the least number of rows, at least 1, whose total width holds len; a line no wider than the screen takes one row |
| TextMetrics.GetNumLines | cmd/nerdlog/message_view.go:104-123 | the loop returns 0 for a width of 0 or less, and otherwise the sum of the rows of each line of the trimmed text, which is at least the number of lines and at least 1 |
| TextMetrics.RowsAtLeastLines | cmd/nerdlog/message_view.go:112-121 | every line costs at least one row |
| TextMetrics.RowsWhenAllFit | cmd/nerdlog/message_view.go:112-121 | when every line fits the width, the row count is the line count |
| TextMetrics.NumLinesLowerBound | cmd/nerdlog/message_view.go:104-123 | the estimate is 0 for a non-positive width and otherwise at least the number of trimmed lines, which is at least 1 |
| TextMetrics.NumLinesWhenFits | cmd/nerdlog/message_view.go:104-123 | when the longest line fits the width, the estimate is the number of lines of the trimmed text |
| TextMetrics.NumLinesOfOneLine | cmd/nerdlog/message_view.go:104-123 | a trimmed text without '\n' takes the rows of its single line |
| TextMetrics.NumLinesWrapExample | cmd/nerdlog/message_view.go:104-123 | ten characters take 2 rows at width 5 and 1 row at widths 10 and 11 |
| TextMetrics.NumLinesBlankExample | cmd/nerdlog/message_view.go:104-123 | a blank text still takes one row |
| Sizing.OptimalMessageViewSize | cmd/nerdlog/message_view.go:130-138 | the width is the longest line plus the extra width, capped at the screen width; the height is at least the extra height, exceeds it exactly when the screen is wider than the extra width, and then by at least the number of lines |
| Sizing.OptimalSizeWhenTextFits | cmd/nerdlog/message_view.go:130-138 | when the text fits on the screen, the size is its longest line plus the extra width by its line count plus the extra height |
| Sizing.OptimalSizeExample | cmd/nerdlog/message_view.go:130-138 | "hello" on an 80-column screen with budgets 4 and 6 gives a 9 by 7 dialog |
| Sizing.FieldsHeightClosedForm | cmd/nerdlog/message_view.go:366-380 | n fields take 2n-1 rows plus one per non-empty label, and no fields take 0 rows |
| Sizing.FieldsHeightBounds | cmd/nerdlog/message_view.go:366-380 | n >= 1 fields take between n and 3n-1 rows |
| Sizing.GetOptimalSize | cmd/nerdlog/message_view.go:364-395 | the loop over the fields gives the optimal size under budgets 4 and 6 plus the field rows; the width never exceeds the screen and the height is at least 6 plus the field rows |
| Sizing.ButtonWidth | cmd/nerdlog/message_view.go:269-274 | a button column is at least 10 wide, leaves 2 columns of padding on each side of the caption, and is exactly 10 or exactly the caption plus 4 |
| FocusRing.FocusOrder | cmd/nerdlog/message_view.go:171-236 | the ring holds the fields in order, then the buttons in order |
| FocusRing.FocusOrderDistinct | cmd/nerdlog/message_view.go:171-236 | no element occurs in the ring twice |
| FocusRing.FocusOrderFromElements | cmd/nerdlog/message_view.go:171-236 | any sequence holding the fields in order, then the buttons, is the ring |
| FocusRing.NextIndex | cmd/nerdlog/message_view.go:414-417 | the next position is (i+1) mod n and stays inside the ring |
| FocusRing.PrevIndex | cmd/nerdlog/message_view.go:409-412 | the previous position is (i-1+n) mod n and stays inside the ring |
| FocusRing.NextPrevInverse | cmd/nerdlog/message_view.go:409-417 | moving forward then back, or back then forward, returns to the start |
| FocusRing.AdvanceWraps | cmd/nerdlog/message_view.go:414-417 | k presses of Tab from i reach i+k, wrapped once past the end |
| FocusRing.TabFullCycle | cmd/nerdlog/message_view.go:414-417 | n presses of Tab in a ring of n return to the start |
| FocusRing.TabReachesEvery | cmd/nerdlog/message_view.go:414-417 | every element is reached from every other by fewer than n presses of Tab |
| FocusRing.LastIndexOf | cmd/nerdlog/message_view.go:404-418 | the scan's answer is absent exactly when the element is not in the ring, and is otherwise its last position |
| FocusRing.LastIndexOfDistinct | cmd/nerdlog/message_view.go:404-418 | in a ring without repeats, the element at p is found at p |
| FocusRing.TargetsOfDistinct | cmd/nerdlog/message_view.go:401-418 | in a ring without repeats, the targets of the element at p are its cyclic neighbours |
| FocusRing.TargetsInFocusOrder | cmd/nerdlog/message_view.go:401-418 | in the dialog's ring, the targets of the element at p are its cyclic neighbours |
| FocusRing.TabTargets | cmd/nerdlog/message_view.go:401-418 | the scan yields the neighbours of the last match, both 0 when the element is absent, and positions inside a non-empty ring |
| FocusRing.TabHandler | cmd/nerdlog/message_view.go:397-431 | Tab focuses the next element and Backtab the previous one, and both are consumed; any other key is passed on unchanged and no focus change happens |
| FocusRing.FocusExample | cmd/nerdlog/message_view.go:404-418 | with two fields and two buttons, Tab goes from the last field to the first button and wraps from the last button to the first field, and Backtab wraps from the first field to the last button |
| RevertState.SetLabel | cmd/nerdlog/message_view.go:351-360 | the label at the index becomes the new label and the others stay; with revert-on-blur the pending revert becomes (index, previous label), replacing any earlier one, and otherwise it is kept |
| RevertState.Blur | cmd/nerdlog/message_view.go:257-262 | a pending revert writes its stored label back at its stored index, leaves the other labels alone and is cleared; with none pending nothing changes |
| RevertState.SetThenBlurRestores | cmd/nerdlog/message_view.go:351-360 | a revert-on-blur label change followed by a blur gives back the original labels |
| RevertState.BlurIdempotent | cmd/nerdlog/message_view.go:257-262 | a second blur changes nothing |
| RevertState.LastRevertWins | cmd/nerdlog/message_view.go:352-357 | of two revert-on-blur changes, only the second is undone by the blur |
| RevertState.PlainSetKeepsPending | cmd/nerdlog/message_view.go:351-360 | a plain label change leaves an earlier pending revert in place, and the blur still undoes it |
| MessageViewModel.MessageView.constructor | cmd/nerdlog/message_view.go:140-293 | a width or height of 0 becomes the optimal one; the current size starts at the shown size; the text is the trimmed message; the ring is the fields then the buttons; nothing is pending |
| MessageViewModel.MessageView.SetText | cmd/nerdlog/message_view.go:310-335 | the text becomes the trimmed new text and the size never shrinks; with resizing each dimension grows to the optimal one if smaller, and a resize to the new size is requested exactly when one grew; without it the size stays and nothing is requested |
| MessageViewModel.MessageView.SetButtonLabel | cmd/nerdlog/message_view.go:351-360 | labels and pending revert move as RevertState.SetLabel says |
| MessageViewModel.MessageView.OnButtonBlur | cmd/nerdlog/message_view.go:257-262 | whichever button blurs, labels and pending revert move as RevertState.Blur says |
| MessageViewModel.MessageView.InitialFocus | cmd/nerdlog/message_view.go:169-275 | the first focused element is the head of the ring: the first field, else the first button, else none |
| MessageViewModel.MessageView.FieldInputCapture | cmd/nerdlog/message_view.go:195-219 | Esc fires the Esc callback when there is one; Tab and Backtab move to the ring's neighbours without calling the field callback; any other key goes to the field callback, whose answer is returned |
| MessageViewModel.MessageView.ButtonInputCapture | cmd/nerdlog/message_view.go:238-253 | Esc fires the Esc callback when there is one; Tab and Backtab move to the ring's neighbours; any other key is handed back unchanged |

## Left out

- Widgets and layout are not modelled: the Flex rows and columns, spacers, frame borders and padding, the title, alignment, colours, the message ID and the password mask character. They are calls into tview and tcell, whose code is not part of this model.
- `Show`, `Hide` and the host's `resizeModal` are not modelled. They act on the host view. `SetText` returns the resize it would request instead.
- `App.SetFocus` is not modelled. The input-capture methods return the element to focus.
- `NoFocus` is not modelled. It only affects `Show` and `Hide`.
- `GetText` is not modelled. It delegates to the text view's tag stripping, which is not part of this model.
- The caller callbacks `OnEsc`, `OnInputFieldPressed` and `OnButtonPressed` are opaque. An Esc press is recorded as a flag. The field callback's answer is an input. A press is described by its arguments (`PressedArgs`). A missing field callback is a crash in the original and is not modelled.
- `mainView.screenWidth` is a parameter of every operation that needs it.
- TextMetrics.GetMaxLineLength: lengths count characters. The original counts UTF-8 bytes: it ranges over runes but measures byte offsets. The two agree on ASCII text only.
- Sizing.ButtonWidth: caption lengths count characters. The original counts UTF-8 bytes (`len`), so a non-ASCII caption gets a wider column there.
- TextMetrics.GetNumLines: line lengths count characters, not UTF-8 bytes as in the original.
- TextMetrics.TrimSpace: text is a sequence of characters, so invalid UTF-8 has no counterpart. The white-space set is the one Go's `unicode.IsSpace` uses.
- Sizing.GetOptimalSize: Go's fixed-width `int` is modelled as an unbounded integer, so overflow on absurd sizes is not modelled.
- FocusRing.TabHandler: requires a non-empty ring for Tab and Backtab. On an empty ring the original indexes out of range. The handler is only installed on ring members, so the ring is never empty where it runs.
- MessageViewModel.MessageView.SetButtonLabel: requires the index to be in range. The original indexes without a check and crashes otherwise.
- MessageViewModel.MessageView.ButtonInputCapture: requires the button index to be in range. The closure exists only for the buttons that were created.

/** The message box controller of cmd/nerdlog/message_view.go, without its
    widgets: the committed size, the displayed text, the button labels with
    their pending revert, the focus ring, and what each key or blur event
    does to them. The host's screen width is a parameter; a resize of the
    modal and a change of focus are returned to the caller. */
module MessageViewModel {
  import opened Wrappers
  import opened TextMetrics
  import opened Sizing
  import opened FocusRing
  import RevertState

  /** What the caller gives when creating the dialog. A width or height of
      0 asks for the optimal value; hasOnEsc says whether an Esc callback
      was supplied. */
  datatype Params = Params(
    message: string,
    inputFields: seq<FieldSpec>,
    buttons: seq<string>,
    width: int,
    height: int,
    hasOnEsc: bool)

  /** What one key press on a focusable element leads to: whether the Esc
      callback ran, which element gets the focus, whether the caller's
      field callback ran, and the key handed back to the toolkit (None when
      the key was consumed). */
  datatype KeyOutcome = KeyOutcome(
    escFired: bool,
    focus: Option<Focusable>,
    callbackCalled: bool,
    result: Option<Key>)

  class MessageView {
    const fields: seq<FieldSpec>
    /** The button labels given at creation; the press callback is given
        these, whatever the buttons show later. */
    const initialLabels: seq<string>
    const hasOnEsc: bool
    /** Width and height after defaulting: the size the dialog is shown at. */
    const width: int
    const height: int
    const focusers: seq<Focusable>
    /** Columns given to each button in the button row. */
    const buttonWidths: seq<int>

    var text: string
    var buttons: seq<string>
    var revert: Option<RevertState.Revert>
    var curWidth: int
    var curHeight: int

    ghost predicate Valid()
      reads this
    {
      |buttons| == |initialLabels| == |buttonWidths|
      && focusers == FocusOrder(|fields|, |initialLabels|)
      && (forall j :: 0 <= j < |initialLabels| ==> buttonWidths[j] == ButtonWidth(initialLabels[j]))
      && RevertState.Valid(LabelState())
      && width <= curWidth && height <= curHeight
    }

    /** The labels and the pending revert, as one value. */
    ghost function LabelState(): RevertState.Labels
      reads this
    {
      RevertState.Labels(buttons, revert)
    }

    /** NewMessageView: a width or height of 0 is replaced by the optimal
        one, the committed size starts at the shown size, the ring holds the
        fields and then the buttons, and nothing is pending. */
    constructor (params: Params, screenWidth: int)
      ensures Valid()
      ensures fields == params.inputFields && initialLabels == params.buttons
      ensures hasOnEsc == params.hasOnEsc
      ensures var opt := OptimalDialogSize(params.inputFields, screenWidth, params.message);
        width == (if params.width == 0 then opt.width else params.width)
        && height == (if params.height == 0 then opt.height else params.height)
      ensures curWidth == width && curHeight == height
      ensures text == TrimSpace(params.message)
      ensures buttons == params.buttons && revert == None
    {
      var opt := GetOptimalSize(params.inputFields, screenWidth, params.message);
      var w := params.width;
      if w == 0 {
        w := opt.width;
      }
      var h := params.height;
      if h == 0 {
        h := opt.height;
      }

      var order: seq<Focusable> := [];
      for i := 0 to |params.inputFields|
        invariant |order| == i
        invariant forall k :: 0 <= k < i ==> order[k] == FieldAt(k)
      {
        order := order + [FieldAt(i)];
      }
      var n := |params.inputFields|;
      var widths: seq<int> := [];
      for i := 0 to |params.buttons|
        invariant |order| == n + i && |widths| == i
        invariant forall k :: 0 <= k < n ==> order[k] == FieldAt(k)
        invariant forall k :: n <= k < n + i ==> order[k] == ButtonAt(k - n)
        invariant forall k :: 0 <= k < i ==> widths[k] == ButtonWidth(params.buttons[k])
      {
        order := order + [ButtonAt(i)];
        var buttonSize := |params.buttons[i]| + 2 * ButtonPadding;
        if buttonSize < MinButtonWidth {
          buttonSize := MinButtonWidth;
        }
        widths := widths + [buttonSize];
      }
      FocusOrderFromElements(n, |params.buttons|, order);

      fields := params.inputFields;
      initialLabels := params.buttons;
      hasOnEsc := params.hasOnEsc;
      width, height := w, h;
      focusers := order;
      buttonWidths := widths;
      text := TrimSpace(params.message);
      buttons := params.buttons;
      revert := None;
      curWidth, curHeight := w, h;
    }

    /** SetText: the shown text is replaced by its trimmed form. With
        resizeIfNeeded, each committed dimension grows to the optimal one
        for the new text if it is smaller, and a resize to the committed
        size is requested exactly when one of them grew; the dialog never
        shrinks. Without it, the size is left alone. */
    method SetText(newText: string, resizeIfNeeded: bool, screenWidth: int) returns (resize: Option<Size>)
      requires Valid()
      modifies this`text, this`curWidth, this`curHeight
      ensures Valid()
      ensures text == TrimSpace(newText)
      ensures old(curWidth) <= curWidth && old(curHeight) <= curHeight
      ensures !resizeIfNeeded ==>
        curWidth == old(curWidth) && curHeight == old(curHeight) && resize == None
      ensures resizeIfNeeded ==>
        var opt := OptimalDialogSize(fields, screenWidth, newText);
        curWidth == (if old(curWidth) < opt.width then opt.width else old(curWidth))
        && curHeight == (if old(curHeight) < opt.height then opt.height else old(curHeight))
        && (resize.Some? <==> old(curWidth) < opt.width || old(curHeight) < opt.height)
      ensures resize.Some? ==> resize.value == Size(curWidth, curHeight)
    {
      text := TrimSpace(newText);
      resize := None;
      if resizeIfNeeded {
        var opt := GetOptimalSize(fields, screenWidth, newText);
        var needResize := false;
        if curWidth < opt.width {
          curWidth := opt.width;
          needResize := true;
        }
        if curHeight < opt.height {
          curHeight := opt.height;
          needResize := true;
        }
        if needResize {
          resize := Some(Size(curWidth, curHeight));
        }
      }
    }

    /** SetButtonLabel: the labels and the pending revert move as
        RevertState.SetLabel says. An index out of range is a crash in the
        original, hence the precondition. */
    method SetButtonLabel(index: nat, newLabel: string, revertOnBlur: bool)
      requires Valid() && index < |buttons|
      modifies this`buttons, this`revert
      ensures Valid()
      ensures LabelState() == RevertState.SetLabel(old(LabelState()), index, newLabel, revertOnBlur)
    {
      if revertOnBlur {
        revert := Some(RevertState.Revert(index, buttons[index]));
      }
      buttons := buttons[index := newLabel];
    }

    /** The blur handler installed on every button: the pending revert, if
        any, is applied to the button it names, whichever button blurred. */
    method OnButtonBlur(blurred: nat)
      requires Valid() && blurred < |buttons|
      modifies this`buttons, this`revert
      ensures Valid()
      ensures LabelState() == RevertState.Blur(old(LabelState()))
    {
      if revert.Some? {
        var rv := revert.value;
        buttons := buttons[rv.index := rv.oldLabel];
        revert := None;
      }
    }

    /** The element focused when the dialog is shown: the first field, else
        the first button, else none (the text view); that is, the head of
        the ring. */
    function InitialFocus(): (r: Option<Focusable>)
      reads this
      requires Valid()
      ensures r.Some? <==> |focusers| > 0
      ensures r.Some? ==> r.value == focusers[0]
    {
      if |fields| > 0 then Some(FieldAt(0))
      else if |initialLabels| > 0 then Some(ButtonAt(0))
      else None
    }

    /** The arguments the button-press callback receives: the label the
        button was created with and its index. */
    function PressedArgs(buttonIdx: nat): (r: (string, nat))
      requires buttonIdx < |initialLabels|
      ensures r.1 == buttonIdx && r.0 == initialLabels[buttonIdx]
    {
      (initialLabels[buttonIdx], buttonIdx)
    }

    /** The input capture of input field fieldIdx: Esc runs the Esc callback
        (if any) and is not consumed by it; Tab and Backtab move the focus
        around the ring and are consumed before the caller's callback could
        see them; every other key goes to the caller's callback, whose
        answer (callbackResult) is what the toolkit gets. */
    method FieldInputCapture(fieldIdx: nat, key: Key, callbackResult: Option<Key>) returns (out: KeyOutcome)
      requires Valid() && fieldIdx < |fields|
      ensures out.escFired <==> key == Esc && hasOnEsc
      ensures key == Tab ==>
        out.focus == Some(focusers[NextIndex(fieldIdx, |focusers|)])
        && !out.callbackCalled && out.result == None
      ensures key == Backtab ==>
        out.focus == Some(focusers[PrevIndex(fieldIdx, |focusers|)])
        && !out.callbackCalled && out.result == None
      ensures key != Tab && key != Backtab ==>
        out.focus == None && out.callbackCalled && out.result == callbackResult
    {
      var escFired := key == Esc && hasOnEsc;
      TargetsInFocusOrder(|fields|, |initialLabels|, fieldIdx);
      var focus, passed := TabHandler(focusers, focusers[fieldIdx], key);
      if passed.None? {
        return KeyOutcome(escFired, focus, false, None);
      }
      return KeyOutcome(escFired, None, true, callbackResult);
    }

    /** The input capture of button buttonIdx: as for a field, but a key
        that is not Tab or Backtab is handed back unchanged. */
    method ButtonInputCapture(buttonIdx: nat, key: Key) returns (out: KeyOutcome)
      requires Valid() && buttonIdx < |buttons|
      ensures out.escFired <==> key == Esc && hasOnEsc
      ensures !out.callbackCalled
      ensures key == Tab ==>
        out.focus == Some(focusers[NextIndex(|fields| + buttonIdx, |focusers|)]) && out.result == None
      ensures key == Backtab ==>
        out.focus == Some(focusers[PrevIndex(|fields| + buttonIdx, |focusers|)]) && out.result == None
      ensures key != Tab && key != Backtab ==> out.focus == None && out.result == Some(key)
    {
      var escFired := key == Esc && hasOnEsc;
      var pos := |fields| + buttonIdx;
      TargetsInFocusOrder(|fields|, |initialLabels|, pos);
      var focus, passed := TabHandler(focusers, focusers[pos], key);
      if passed.None? {
        return KeyOutcome(escFired, focus, false, None);
      }
      return KeyOutcome(escFired, None, false, passed);
    }
  }

  /** Two buttons and no fields: the first button gets the focus, Tab goes
      to the second and wraps back to the first, and other keys are handed
      back. */
  method FocusScenario(screenWidth: int)
  {
    var v := new MessageView(Params("Copy the link?", [], ["OK", "Cancel"], 0, 0, false), screenWidth);
    assert v.focusers == FocusOrder(0, 2);
    assert v.InitialFocus() == Some(ButtonAt(0));
    var k1 := v.ButtonInputCapture(0, Tab);
    assert k1.focus == Some(ButtonAt(1)) && k1.result == None;
    var k2 := v.ButtonInputCapture(1, Tab);
    assert k2.focus == Some(ButtonAt(0));
    var k3 := v.ButtonInputCapture(0, OtherKey(13));
    assert k3.result == Some(OtherKey(13)) && k3.focus == None;
  }

  /** A "Copied" label set with revert-on-blur is undone when the focus
      moves, whichever button blurs. */
  method RevertScenario(screenWidth: int)
  {
    var v := new MessageView(Params("Copy the link?", [], ["Copy", "Close"], 0, 0, false), screenWidth);
    v.SetButtonLabel(0, "Copied", true);
    assert v.buttons == ["Copied", "Close"];
    // A press still reports the label the button was created with.
    assert v.PressedArgs(0) == ("Copy", 0);
    v.OnButtonBlur(1);
    assert v.buttons == ["Copy", "Close"] && v.revert == None;
  }
}

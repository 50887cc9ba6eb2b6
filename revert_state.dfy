/** The button labels of the dialog and the one pending "revert this label
    when the button loses focus" request, as used for a "Copy" button that
    shows "Copied" until it is left (cmd/nerdlog/message_view.go). */
module RevertState {
  import opened Wrappers

  /** The button to revert and the label to put back. */
  datatype Revert = Revert(index: nat, oldLabel: string)

  /** The labels of the buttons and the pending revert, if any. */
  datatype Labels = Labels(buttons: seq<string>, pending: Option<Revert>)

  /** A pending revert names an existing button. */
  predicate Valid(st: Labels)
  {
    st.pending.Some? ==> st.pending.value.index < |st.buttons|
  }

  /** SetButtonLabel: the label of button index becomes newLabel and no other
      label changes; with revertOnBlur the pending revert becomes (index,
      previous label), dropping any earlier one; without it the pending
      revert is left alone. */
  function SetLabel(st: Labels, index: nat, newLabel: string, revertOnBlur: bool): (r: Labels)
    requires index < |st.buttons|
    ensures |r.buttons| == |st.buttons|
    ensures r.buttons[index] == newLabel
    ensures forall k :: 0 <= k < |st.buttons| && k != index ==> r.buttons[k] == st.buttons[k]
    ensures revertOnBlur ==> r.pending == Some(Revert(index, st.buttons[index]))
    ensures !revertOnBlur ==> r.pending == st.pending
    ensures Valid(st) ==> Valid(r)
  {
    var pending := if revertOnBlur then Some(Revert(index, st.buttons[index])) else st.pending;
    Labels(st.buttons[index := newLabel], pending)
  }

  /** The blur handler of any button: a pending revert is applied to the
      button it names (not necessarily the one that lost focus) and
      cleared; with nothing pending, nothing changes. */
  function Blur(st: Labels): (r: Labels)
    requires Valid(st)
    ensures r.pending == None && Valid(r)
    ensures |r.buttons| == |st.buttons|
    ensures st.pending.None? ==> r == st
    ensures st.pending.Some? ==>
      r.buttons[st.pending.value.index] == st.pending.value.oldLabel
      && forall k :: 0 <= k < |st.buttons| && k != st.pending.value.index ==> r.buttons[k] == st.buttons[k]
  {
    match st.pending
    case None => st
    case Some(rv) => Labels(st.buttons[rv.index := rv.oldLabel], None)
  }

  /** Setting a label with revert-on-blur and then losing focus puts every
      label back as it was and leaves nothing pending. */
  lemma SetThenBlurRestores(st: Labels, index: nat, newLabel: string)
    requires Valid(st) && index < |st.buttons|
    ensures Blur(SetLabel(st, index, newLabel, true)) == Labels(st.buttons, None)
  {
    var r := Blur(SetLabel(st, index, newLabel, true));
    assert r.buttons == st.buttons;
  }

  /** A second blur finds nothing pending and changes nothing. */
  lemma BlurIdempotent(st: Labels)
    requires Valid(st)
    ensures Blur(Blur(st)) == Blur(st)
  {
  }

  /** Last write wins: of two revert-on-blur changes before a blur, only
      the second is reverted, so button i keeps the first new label unless
      the second change was to the same button. */
  lemma LastRevertWins(st: Labels, i: nat, first: string, j: nat, second: string)
    requires Valid(st) && i < |st.buttons| && j < |st.buttons|
    ensures Blur(SetLabel(SetLabel(st, i, first, true), j, second, true))
         == Labels(st.buttons[i := first], None)
  {
    var mid := SetLabel(st, i, first, true);
    assert mid.buttons == st.buttons[i := first];
    var r := Blur(SetLabel(mid, j, second, true));
    assert r.buttons == mid.buttons;
  }

  /** A change without revert-on-blur keeps an earlier pending revert, which
      still restores the label saved before that earlier change. */
  lemma PlainSetKeepsPending(st: Labels, i: nat, first: string, j: nat, second: string)
    requires Valid(st) && i < |st.buttons| && j < |st.buttons|
    ensures Blur(SetLabel(SetLabel(st, i, first, true), j, second, false))
         == Labels(st.buttons[j := second][i := st.buttons[i]], None)
  {
    var mid := SetLabel(st, i, first, true);
    var r := Blur(SetLabel(mid, j, second, false));
    assert r.buttons == st.buttons[j := second][i := st.buttons[i]];
  }
}

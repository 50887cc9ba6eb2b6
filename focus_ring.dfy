/** Keyboard focus cycling between the dialog's focusable elements: the
    input fields first, then the buttons; Tab moves forward, Backtab
    backward, both wrapping around (cmd/nerdlog/message_view.go). */
module FocusRing {
  import opened Wrappers

  /** A focusable element, by its position among the fields or buttons. */
  datatype Focusable = FieldAt(index: nat) | ButtonAt(index: nat)

  /** The keys the dialog distinguishes; every other key is OtherKey. */
  datatype Key = Tab | Backtab | Esc | OtherKey(code: int)

  /** The ring in insertion order: every field, then every button. */
  function FocusOrder(numFields: nat, numButtons: nat): (r: seq<Focusable>)
    ensures |r| == numFields + numButtons
    ensures forall i :: 0 <= i < numFields ==> r[i] == FieldAt(i)
    ensures forall j :: numFields <= j < |r| ==> r[j] == ButtonAt(j - numFields)
  {
    seq(numFields, i requires 0 <= i => FieldAt(i)) + seq(numButtons, j requires 0 <= j => ButtonAt(j))
  }

  /** A sequence holding every field and then every button, in order, is
      the ring. */
  lemma FocusOrderFromElements(numFields: nat, numButtons: nat, order: seq<Focusable>)
    requires |order| == numFields + numButtons
    requires forall k :: 0 <= k < numFields ==> order[k] == FieldAt(k)
    requires forall k :: numFields <= k < |order| ==> order[k] == ButtonAt(k - numFields)
    ensures order == FocusOrder(numFields, numButtons)
  {
    var r := FocusOrder(numFields, numButtons);
    forall k | 0 <= k < |r| ensures order[k] == r[k] {
      if k < numFields {
        assert r[k] == FieldAt(k);
      } else {
        assert r[k] == ButtonAt(k - numFields);
      }
    }
  }

  /** Every element occurs in the ring once. */
  lemma FocusOrderDistinct(numFields: nat, numButtons: nat)
    ensures var r := FocusOrder(numFields, numButtons);
      forall i, j :: 0 <= i < j < |r| ==> r[i] != r[j]
  {
    var r := FocusOrder(numFields, numButtons);
    forall i, j | 0 <= i < j < |r| ensures r[i] != r[j] {
      if j < numFields {
        assert r[i] == FieldAt(i) && r[j] == FieldAt(j);
      } else if i >= numFields {
        assert r[i] == ButtonAt(i - numFields) && r[j] == ButtonAt(j - numFields);
      } else {
        assert r[i].FieldAt? && r[j].ButtonAt?;
      }
    }
  }

  lemma ModWithinRange(a: int, n: int)
    requires 0 <= a < n
    ensures a % n == a && (a + n) % n == a
  {
  }

  /** The index after i, wrapping from the last to the first. */
  function NextIndex(i: nat, n: nat): (r: nat)
    requires i < n
    ensures r < n
    ensures r == (i + 1) % n
  {
    if i + 1 >= n then
      0
    else
      ModWithinRange(i + 1, n);
      i + 1
  }

  /** The index before i, wrapping from the first to the last. */
  function PrevIndex(i: nat, n: nat): (r: nat)
    requires i < n
    ensures r < n
    ensures r == (i + n - 1) % n
  {
    if i == 0 then
      ModWithinRange(n - 1, n);
      n - 1
    else
      ModWithinRange(i - 1, n);
      i - 1
  }

  /** Tab then Backtab, or Backtab then Tab, comes back to where it started. */
  lemma NextPrevInverse(i: nat, n: nat)
    requires i < n
    ensures PrevIndex(NextIndex(i, n), n) == i
    ensures NextIndex(PrevIndex(i, n), n) == i
  {
  }

  /** Position after k presses of Tab from position i. */
  function Advance(i: nat, n: nat, k: nat): (r: nat)
    requires i < n
    ensures r < n
  {
    if k == 0 then i else NextIndex(Advance(i, n, k - 1), n)
  }

  /** Up to a full turn, k presses of Tab move k places, wrapping once. */
  lemma {:induction false} AdvanceWraps(i: nat, n: nat, k: nat)
    requires i < n && k <= n
    ensures Advance(i, n, k) == if i + k < n then i + k else i + k - n
  {
    if k > 0 {
      AdvanceWraps(i, n, k - 1);
    }
  }

  /** n presses of Tab on a ring of n elements come back to the start. */
  lemma TabFullCycle(i: nat, n: nat)
    requires i < n
    ensures Advance(i, n, n) == i
  {
    AdvanceWraps(i, n, n);
  }

  /** Every element of the ring is reached from any other by fewer than n
      presses of Tab. */
  lemma TabReachesEvery(i: nat, j: nat, n: nat)
    requires i < n && j < n
    ensures var k := if i <= j then j - i else j + n - i;
      k < n && Advance(i, n, k) == j
  {
    var k := if i <= j then j - i else j + n - i;
    AdvanceWraps(i, n, k);
  }

  /** The last position of x in s, if any. */
  function LastIndexOf<T(==)>(s: seq<T>, x: T): (r: Option<nat>)
    ensures r.None? <==> x !in s
    ensures r.Some? ==> r.value < |s| && s[r.value] == x && x !in s[r.value + 1..]
  {
    if s == [] then None
    else if s[|s| - 1] == x then Some(|s| - 1)
    else
      var r := LastIndexOf(s[..|s| - 1], x);
      assert s == s[..|s| - 1] + [s[|s| - 1]];
      if r.Some? then
        assert s[r.value + 1..] == s[..|s| - 1][r.value + 1..] + [s[|s| - 1]];
        r
      else r
  }

  /** In a ring without repeats, the element at p is found at p. */
  lemma LastIndexOfDistinct<T>(s: seq<T>, p: nat)
    requires p < |s|
    requires forall i, j :: 0 <= i < j < |s| ==> s[i] != s[j]
    ensures LastIndexOf(s, s[p]) == Some(p)
  {
  }

  /** The previous and next positions the tab handler picks for cur: the
      neighbours of its last position, or 0 and 0 when it is absent. */
  function Targets(focusers: seq<Focusable>, n: nat, cur: Focusable): (r: (nat, nat))
    requires |focusers| <= n
  {
    match LastIndexOf(focusers, cur)
    case None => (0, 0)
    case Some(i) => (PrevIndex(i, n), NextIndex(i, n))
  }

  /** In a ring without repeats, the neighbours chosen for the element at p
      are the ones on either side of p. */
  lemma TargetsOfDistinct(focusers: seq<Focusable>, p: nat)
    requires p < |focusers|
    requires forall i, j :: 0 <= i < j < |focusers| ==> focusers[i] != focusers[j]
    ensures Targets(focusers, |focusers|, focusers[p])
      == (PrevIndex(p, |focusers|), NextIndex(p, |focusers|))
  {
    LastIndexOfDistinct(focusers, p);
  }

  /** The neighbours chosen for the element at p of the focus ring. */
  lemma TargetsInFocusOrder(numFields: nat, numButtons: nat, p: nat)
    requires p < numFields + numButtons
    ensures var r := FocusOrder(numFields, numButtons);
      Targets(r, |r|, r[p]) == (PrevIndex(p, |r|), NextIndex(p, |r|))
  {
    FocusOrderDistinct(numFields, numButtons);
    TargetsOfDistinct(FocusOrder(numFields, numButtons), p);
  }

  /** The scan of the tab handler: every match of cur in the ring updates
      the previous and next positions, so the last match decides. */
  method TabTargets(focusers: seq<Focusable>, cur: Focusable) returns (prevIdx: nat, nextIdx: nat)
    ensures (prevIdx, nextIdx) == Targets(focusers, |focusers|, cur)
    ensures cur !in focusers ==> prevIdx == 0 && nextIdx == 0
    ensures |focusers| > 0 ==> prevIdx < |focusers| && nextIdx < |focusers|
  {
    var n := |focusers|;
    var next, prev := 0, 0;
    for i := 0 to n
      invariant 0 <= prev && 0 <= next
      invariant (prev, next) == Targets(focusers[..i], n, cur)
    {
      assert focusers[..i + 1][..i] == focusers[..i];
      if focusers[i] != cur {
        continue;
      }
      prev := i - 1;
      if prev < 0 {
        prev := n - 1;
      }
      next := i + 1;
      if next >= n {
        next := 0;
      }
    }
    assert focusers[..n] == focusers;
    prevIdx, nextIdx := prev, next;
  }

  /** The tab handler of one focusable element: Tab and Backtab are
      consumed and hand the focus to the next or previous element of the
      ring; any other key is passed on and the focus stays. */
  method TabHandler(focusers: seq<Focusable>, cur: Focusable, key: Key) returns (focus: Option<Focusable>, passed: Option<Key>)
    requires key == Tab || key == Backtab ==> |focusers| > 0
    ensures key == Tab ==> focus == Some(focusers[Targets(focusers, |focusers|, cur).1]) && passed == None
    ensures key == Backtab ==> focus == Some(focusers[Targets(focusers, |focusers|, cur).0]) && passed == None
    ensures key != Tab && key != Backtab ==> focus == None && passed == Some(key)
  {
    var prevIdx, nextIdx := TabTargets(focusers, cur);
    match key {
      case Tab =>
        return Some(focusers[nextIdx]), None;
      case Backtab =>
        return Some(focusers[prevIdx]), None;
      case _ =>
    }
    return None, Some(key);
  }

  /** The cycling example with two fields and two buttons. */
  lemma FocusExample()
    ensures var r := FocusOrder(2, 2);
      r == [FieldAt(0), FieldAt(1), ButtonAt(0), ButtonAt(1)]
      && r[NextIndex(1, 4)] == ButtonAt(0)
      && r[PrevIndex(0, 4)] == ButtonAt(1)
      && r[NextIndex(3, 4)] == FieldAt(0)
  {
  }
}

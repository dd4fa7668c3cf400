// Choosing the largest components: the size table is emptied slot by slot and
// put back afterwards.
module LargestComponents {
  import opened Words

  const NONE: int := -2
  const MAX_SLOTS: nat := 10

  // Sizes with some labels taken out; label 0 never is.
  function Without(sizes: seq<nat>, taken: seq<int>): (r: seq<nat>)
    ensures |r| == |sizes|
    ensures forall l :: 0 <= l < |sizes| ==> r[l] == if l > 0 && l in taken then 0 else sizes[l]
  {
    seq(|sizes|, l requires 0 <= l < |sizes| => if l > 0 && l in taken then 0 else sizes[l])
  }

  // The lowest label of the largest size above the threshold, if there is one.
  ghost predicate IsChoice(sizes: seq<nat>, c: int, threshold: int) {
    if c == NONE then forall l :: 0 <= l < |sizes| ==> sizes[l] <= threshold
    else
      && 0 <= c < |sizes| && sizes[c] > threshold
      && (forall l :: 0 <= l < |sizes| ==> sizes[l] <= sizes[c])
      && (forall l :: 0 <= l < c ==> sizes[l] < sizes[c])
  }

  // Each slot is the choice among what the slots before it left.
  ghost predicate Selection(sizes: seq<nat>, selected: seq<int>, threshold: int) {
    forall i :: 0 <= i < |selected| ==> IsChoice(Without(sizes, selected[..i]), selected[i], threshold)
  }

  // A label that was taken out has size 0 and cannot beat label 0.
  lemma ChoiceIsNew(sizes: seq<nat>, taken: seq<int>, c: int, threshold: int)
    requires IsChoice(Without(sizes, taken), c, threshold) && c != NONE
    ensures 0 <= c < |sizes| && sizes[c] > threshold && (c > 0 ==> c !in taken)
  {
    if c > 0 { assert Without(sizes, taken)[0] < Without(sizes, taken)[c]; }
  }

  lemma TwoSlots(sizes: seq<nat>, selected: seq<int>, threshold: int, i: nat, j: nat)
    requires Selection(sizes, selected, threshold) && i < j < |selected|
    ensures selected[j] != NONE ==> selected[i] != NONE && sizes[selected[i]] >= sizes[selected[j]]
    ensures selected[j] > 0 ==> selected[i] != selected[j]
    ensures selected[i] == 0 ==> selected[j] == 0
  {
    var early, late := Without(sizes, selected[..i]), Without(sizes, selected[..j]);
    assert IsChoice(early, selected[i], threshold) && IsChoice(late, selected[j], threshold);
    assert forall l :: l in selected[..i] ==> l in selected[..j];
    assert selected[i] in selected[..j];
    if selected[j] != NONE { ChoiceIsNew(sizes, selected[..j], selected[j], threshold); }
    if selected[i] != NONE { ChoiceIsNew(sizes, selected[..i], selected[i], threshold); }
    if selected[i] == 0 { assert late[0] == early[0]; }
  }

  // The selected labels are in descending order of size, and every label left
  // out is no larger than any of them; an empty slot means that nothing above
  // the threshold is left. No component is selected twice; the background, if
  // it is, fills all further slots.
  lemma SelectionIsLargest(sizes: seq<nat>, selected: seq<int>, threshold: int)
    requires Selection(sizes, selected, threshold)
    ensures forall i :: 0 <= i < |selected| && selected[i] != NONE ==>
              0 <= selected[i] < |sizes| && sizes[selected[i]] > threshold
    ensures forall i, j :: 0 <= i < j < |selected| && selected[j] != NONE ==>
              selected[i] != NONE && sizes[selected[i]] >= sizes[selected[j]]
    ensures forall i, j :: 0 <= i < j < |selected| && selected[j] > 0 ==> selected[i] != selected[j]
    ensures forall i, j :: 0 <= i < j < |selected| && selected[i] == 0 ==> selected[j] == 0
    ensures forall i, l :: 0 <= i < |selected| && 0 <= l < |sizes| && l !in selected ==>
              sizes[l] <= (if selected[i] == NONE then threshold else sizes[selected[i]])
  {
    forall i | 0 <= i < |selected| && selected[i] != NONE
      ensures 0 <= selected[i] < |sizes| && sizes[selected[i]] > threshold
    {
      ChoiceIsNew(sizes, selected[..i], selected[i], threshold);
    }
    forall i, j | 0 <= i < j < |selected|
      ensures selected[j] != NONE ==> selected[i] != NONE && sizes[selected[i]] >= sizes[selected[j]]
      ensures selected[j] > 0 ==> selected[i] != selected[j]
      ensures selected[i] == 0 ==> selected[j] == 0
    {
      TwoSlots(sizes, selected, threshold, i, j);
    }
    forall i, l | 0 <= i < |selected| && 0 <= l < |sizes| && l !in selected
      ensures sizes[l] <= (if selected[i] == NONE then threshold else sizes[selected[i]])
    {
      LeftOut(sizes, selected, threshold, i, l);
    }
  }

  lemma LeftOut(sizes: seq<nat>, selected: seq<int>, threshold: int, i: nat, l: nat)
    requires Selection(sizes, selected, threshold) && i < |selected| && l < |sizes| && l !in selected
    ensures selected[i] == NONE ==> sizes[l] <= threshold
    ensures selected[i] != NONE ==> 0 <= selected[i] < |sizes| && sizes[l] <= sizes[selected[i]]
  {
    var early := Without(sizes, selected[..i]);
    assert IsChoice(early, selected[i], threshold);
    assert early[l] == sizes[l];
    if selected[i] != NONE { ChoiceIsNew(sizes, selected[..i], selected[i], threshold); }
  }

  method Choose(sizes: array<nat>, threshold: int) returns (c: int)
    ensures IsChoice(sizes[..], c, threshold)
  {
    c := NONE;
    var best := threshold;
    for l := 0 to sizes.Length
      invariant c == NONE ==> best == threshold && forall i :: 0 <= i < l ==> sizes[i] <= threshold
      invariant c != NONE ==> 0 <= c < l && best == sizes[c] > threshold
      invariant c != NONE ==> forall i :: 0 <= i < l ==> sizes[i] <= best
      invariant c != NONE ==> forall i :: 0 <= i < c ==> sizes[i] < best
    {
      if sizes[l] > best {
        c := l;
        best := sizes[l];
      }
    }
  }

  // One slot: choose, remember the size, and take the label out.
  method TakeSlot(sizes: array<nat>, threshold: int, ghost original: seq<nat>, ghost taken: seq<int>)
    returns (c: int, saved: nat)
    requires sizes[..] == Without(original, taken)
    modifies sizes
    ensures IsChoice(Without(original, taken), c, threshold) && sizes[..] == Without(original, taken + [c])
    ensures c > 0 ==> c < |original| && saved == original[c] && c !in taken
  {
    c := Choose(sizes, threshold);
    saved := 0;
    if c != NONE { ChoiceIsNew(original, taken, c, threshold); }
    if c > 0 {
      saved := sizes[c];
      sizes[c] := 0;
    }
  }

  ghost predicate Remembered(original: seq<nat>, selected: seq<int>, saved: seq<nat>) {
    && |saved| == |selected|
    && (forall i :: 0 <= i < |selected| && selected[i] > 0 ==>
          selected[i] < |original| && saved[i] == original[selected[i]])
    && (forall i, j :: 0 <= i < j < |selected| && selected[j] > 0 ==> selected[i] != selected[j])
  }

  lemma SelectionMore(sizes: seq<nat>, selected: seq<int>, c: int, threshold: int)
    requires Selection(sizes, selected, threshold) && IsChoice(Without(sizes, selected), c, threshold)
    ensures Selection(sizes, selected + [c], threshold)
  {
    var more := selected + [c];
    forall i | 0 <= i < |more| ensures IsChoice(Without(sizes, more[..i]), more[i], threshold) {
      assert more[..i] == if i < |selected| then selected[..i] else selected;
    }
  }

  // Puts one remembered size back.
  method Restore(sizes: array<nat>, c: int, saved: nat, ghost original: seq<nat>, ghost rest: seq<int>)
    requires sizes[..] == Without(original, [c] + rest)
    requires c > 0 ==> c < |original| && saved == original[c] && c !in rest
    modifies sizes
    ensures sizes[..] == Without(original, rest)
  {
    assert forall l :: l in [c] + rest <==> l == c || l in rest;
    if c > 0 { sizes[c] := saved; }
  }

  // The labels of the largest components for any threshold, none for more than
  // ten slots; the table is as before.
  method SelectLargest(sizes: array<nat>, slots: nat, threshold: int) returns (selected: seq<int>)
    modifies sizes
    ensures |selected| == (if slots <= MAX_SLOTS then slots else 0) && Selection(old(sizes[..]), selected, threshold)
    ensures sizes[..] == old(sizes[..])
  {
    if slots > MAX_SLOTS { return []; }
    ghost var original := sizes[..];
    selected := [];
    var saved: seq<nat> := [];
    assert sizes[..] == Without(original, []);
    for slot := 0 to slots
      invariant |selected| == slot && sizes[..] == Without(original, selected)
      invariant Selection(original, selected, threshold) && Remembered(original, selected, saved)
    {
      var c, size := TakeSlot(sizes, threshold, original, selected);
      SelectionMore(original, selected, c, threshold);
      selected := selected + [c];
      saved := saved + [size];
    }
    assert selected[0..] == selected;
    for slot := 0 to slots
      invariant sizes[..] == Without(original, selected[slot..])
    {
      assert selected[slot..] == [selected[slot]] + selected[slot + 1..];
      Restore(sizes, selected[slot], saved[slot], original, selected[slot + 1..]);
    }
    assert sizes[..] == original;
  }
}

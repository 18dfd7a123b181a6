/**
 The list-of-strings editor every rule field of list shape goes through
 (domains, IPs, and the port lists seen through `PortLens`). Its "Done"
 button trims the typed value and appends it when it is new and not empty;
 swipe-to-delete and drag-to-move are the offset edits of `ListEdits`.
 */
module StringList {
  import opened Text
  import opened ListEdits

  /** The invariant the editor maintains: every entry is non-empty and
      already trimmed, and no entry occurs twice. */
  ghost predicate Clean(elements: seq<string>) {
    && NoDup(elements)
    && forall i :: 0 <= i < |elements| ==> elements[i] != "" && Trimmed(elements[i])
  }

  /** The "Done" action of the add alert. */
  function Add(elements: seq<string>, candidate: string): (r: seq<string>)
    ensures elements <= r && |r| <= |elements| + 1
    ensures |r| == |elements| + 1 <==> Trim(candidate) != "" && Trim(candidate) !in elements
    ensures |r| == |elements| + 1 ==> r[|elements|] == Trim(candidate)
    ensures Trim(candidate) != "" ==> Trim(candidate) in r
    ensures Clean(elements) ==> Clean(r)
  {
    var value := Trim(candidate);
    if value != "" && value !in elements then
      AppendKeepsClean(elements, value);
      elements + [value]
    else elements
  }

  lemma AppendKeepsClean(elements: seq<string>, value: string)
    requires value != "" && Trimmed(value) && value !in elements
    ensures Clean(elements) ==> Clean(elements + [value])
  {
    var r := elements + [value];
    if Clean(elements) {
      forall i, j | 0 <= i < j < |r|
        ensures r[i] != r[j]
      {
        if j == |elements| {
          assert r[i] == elements[i];
        } else {
          assert r[i] == elements[i] && r[j] == elements[j];
        }
      }
    }
  }

  /** Pressing "Done" again with the same text changes nothing. */
  lemma AddIdempotent(elements: seq<string>, candidate: string)
    ensures Add(Add(elements, candidate), candidate) == Add(elements, candidate)
  {
  }

  /** Adding a new value twice, in any padding, leaves exactly one copy of it. */
  lemma AddTwiceKeepsOneCopy(elements: seq<string>, first: string, second: string)
    requires Trim(first) == Trim(second) != "" && Trim(first) !in elements
    ensures multiset(Add(Add(elements, first), second))[Trim(first)] == 1
  {
    var once := Add(elements, first);
    assert once == elements + [Trim(first)];
    assert multiset(elements)[Trim(first)] == 0;
  }

  /** Swipe-to-delete keeps the list clean. */
  lemma RemovePreservesClean(elements: seq<string>, offsets: set<nat>)
    requires ValidOffsets(offsets, |elements|) && Clean(elements)
    ensures Clean(RemoveAt(elements, offsets))
  {
    RemoveAtNoDup(elements, offsets);
    RemoveAtFrom(elements, offsets);
    var r := RemoveAt(elements, offsets);
    forall i | 0 <= i < |r|
      ensures r[i] != "" && Trimmed(r[i])
    {
      assert r[i] in r;
    }
  }

  /** Drag-to-move keeps the list clean. */
  lemma MovePreservesClean(elements: seq<string>, offsets: set<nat>, to: nat)
    requires ValidOffsets(offsets, |elements|) && to <= |elements| && Clean(elements)
    ensures Clean(Move(elements, offsets, to))
  {
    MoveNoDup(elements, offsets, to);
    var r := Move(elements, offsets, to);
    forall i | 0 <= i < |r|
      ensures r[i] != "" && Trimmed(r[i])
    {
      assert r[i] in multiset(r);
      assert r[i] in elements;
    }
  }
}

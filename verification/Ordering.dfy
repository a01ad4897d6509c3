/** `ORDER BY` over a set of rows: any arrangement by the index, ties broken in no particular way. */
module Ordering {
  import opened Wrappers

  ghost predicate NoDuplicates(ids: seq<Uuid>) {
    forall i, j :: 0 <= i < j < |ids| ==> ids[i] != ids[j]
  }

  lemma {:induction false} SomethingIsLeast(ids: set<Uuid>, index: Uuid -> int)
    requires ids != {}
    ensures exists id :: id in ids && forall other :: other in ids ==> index(id) <= index(other)
  {
    var first :| first in ids;
    var rest := ids - {first};
    assert forall other :: other in ids <==> other == first || other in rest;
    if rest != {} {
      SomethingIsLeast(rest, index);
      var least :| least in rest && forall other :: other in rest ==> index(least) <= index(other);
      var id := if index(first) <= index(least) then first else least;
      assert id in ids && forall other :: other in ids ==> index(id) <= index(other);
    }
  }

  /** A set in the order of an index, whose ties are broken in no particular way. */
  ghost predicate IsSorted(ids: set<Uuid>, index: Uuid -> int, out: seq<Uuid>) {
    && NoDuplicates(out)
    && (forall id :: id in out <==> id in ids)
    && (forall i, j :: 0 <= i < j < |out| ==> index(out[i]) <= index(out[j]))
  }

  /** `ORDER BY`. */
  method Sorted(ids: set<Uuid>, index: Uuid -> int) returns (out: seq<Uuid>)
    ensures IsSorted(ids, index, out)
  {
    out := [];
    var left := ids;
    while left != {}
      invariant left <= ids && NoDuplicates(out)
      invariant forall id :: id in out <==> id in ids - left
      invariant forall i, j :: 0 <= i < j < |out| ==> index(out[i]) <= index(out[j])
      invariant forall i, id :: 0 <= i < |out| && id in left ==> index(out[i]) <= index(id)
      decreases |left|
    {
      SomethingIsLeast(left, index);
      var next :| next in left && forall other :: other in left ==> index(next) <= index(other);
      assert forall i :: 0 <= i < |out| ==> out[i] in out;
      out := out + [next];
      left := left - {next};
    }
  }
}

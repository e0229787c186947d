/** The insertion-ordered counter of src/nvidia/projection.rs. */
module Census {
  import opened Lists

  type Entry = (string, nat)

  /** How much the entries count for `op` altogether. */
  ghost function Count(items: seq<Entry>, op: string): nat {
    if items == [] then 0
    else
      var n := |items| - 1;
      Count(items[..n], op) + if items[n].0 == op then items[n].1 else 0
  }

  ghost function Total(items: seq<Entry>): nat {
    if items == [] then 0 else Total(items[..|items| - 1]) + items[|items| - 1].1
  }

  ghost predicate Distinct(items: seq<Entry>) {
    forall i, j :: 0 <= i < j < |items| ==> items[i].0 != items[j].0
  }

  ghost predicate Added(before: seq<Entry>, after: seq<Entry>, op: string, n: nat) {
    && (forall x :: Count(after, x) == Count(before, x) + (if x == op then n else 0))
    && Total(after) == Total(before) + n
    && Keys(after) == Keys(before) + (if op in Keys(before) then [] else [op])
  }

  lemma {:induction false} BumpOne(items: seq<Entry>, k: nat, n: nat, op: string)
    requires k < |items|
    ensures var bumped := items[k := (items[k].0, items[k].1 + n)];
            && Count(bumped, op) == Count(items, op) + (if items[k].0 == op then n else 0)
            && Total(bumped) == Total(items) + n
  {
    var bumped := items[k := (items[k].0, items[k].1 + n)];
    var last := |items| - 1;
    if k == last {
      assert bumped[..last] == items[..last];
    } else {
      BumpOne(items[..last], k, n, op);
      assert bumped[..last] == items[..last][k := bumped[k]];
    }
  }

  lemma BumpAdds(items: seq<Entry>, k: nat, n: nat)
    requires k < |items|
    ensures Added(items, items[k := (items[k].0, items[k].1 + n)], items[k].0, n)
  {
    var bumped := items[k := (items[k].0, items[k].1 + n)];
    BumpOne(items, k, n, items[k].0);
    forall x
      ensures Count(bumped, x) == Count(items, x) + (if x == items[k].0 then n else 0)
    {
      BumpOne(items, k, n, x);
    }
    assert items[k].0 == Keys(items)[k];
    assert Keys(bumped) == Keys(items) == Keys(items) + [];
  }

  lemma AppendAdds(items: seq<Entry>, op: string, n: nat)
    requires forall i :: 0 <= i < |items| ==> items[i].0 != op
    ensures Added(items, items + [(op, n)], op, n)
  {
    var longer := items + [(op, n)];
    assert longer[..|items|] == items;
    assert Keys(longer) == Keys(items) + [op];
  }

  class Counter {
    var items: seq<Entry>

    constructor ()
      ensures items == []
    {
      items := [];
    }

    /** Only the count of `op` grows; the names keep their first-seen order, and a new
        name goes to the end. */
    method Add(op: string, n: nat)
      modifies this
      ensures Added(old(items), items, op, n)
      ensures Distinct(old(items)) ==> Distinct(items)
    {
      var k := Find(items, op);
      if k < |items| {
        BumpAdds(items, k, n);
        items := items[k := (items[k].0, items[k].1 + n)];
      } else {
        AppendAdds(items, op, n);
        items := items + [(op, n)];
      }
    }
  }
}

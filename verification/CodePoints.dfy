/** The interval tables behind character widths. */
module CodePoints {
  datatype Interval = Interval(first: nat, last: nat)

  predicate Contains(v: Interval, cp: nat) {
    v.first <= cp <= v.last
  }

  /** Sorted and non-overlapping, as the tables in the source are. */
  ghost predicate Ordered(table: seq<Interval>) {
    && (forall i :: 0 <= i < |table| ==> table[i].first <= table[i].last)
    && (forall i, j :: 0 <= i < j < |table| ==> table[i].last < table[j].first)
  }

  /** Binary search: whether some interval of the table contains the code point. `max` is the last
      index. */
  method Bisearch(ucs: nat, table: array<Interval>, max: nat) returns (found: bool)
    requires table.Length == max + 1 && Ordered(table[..])
    ensures found <==> exists v :: v in table[..] && Contains(v, ucs)
  {
    ghost var all := table[..];
    if ucs < table[0].first || ucs > table[max].last {
      Outside(all, ucs);
      return false;
    }
    var lo, hi: int := 0, max;
    while hi >= lo
      invariant 0 <= lo && hi <= max && lo <= hi + 1
      invariant forall i :: 0 <= i < lo ==> all[i].last < ucs
      invariant forall i :: hi < i <= max ==> ucs < all[i].first
      decreases hi - lo
    {
      var mid := (lo + hi) / 2;
      assert table[mid] == all[mid];
      if ucs > table[mid].last {
        lo := mid + 1;
      } else if ucs < table[mid].first {
        hi := mid - 1;
      } else {
        assert all[mid] in all && Contains(all[mid], ucs);
        return true;
      }
    }
    forall v | v in all ensures !Contains(v, ucs) {
      var i :| 0 <= i < |all| && all[i] == v;
    }
    found := false;
  }

  /** Outside the hull of the table nothing contains the code point. */
  lemma Outside(table: seq<Interval>, cp: nat)
    requires |table| > 0 && Ordered(table) && (cp < table[0].first || cp > table[|table| - 1].last)
    ensures forall v :: v in table ==> !Contains(v, cp)
  {
    forall v | v in table ensures !Contains(v, cp) {
      var i :| 0 <= i < |table| && table[i] == v;
      if i > 0 { assert table[0].last < table[i].first; }
      if i < |table| - 1 { assert table[i].last < table[|table| - 1].first; }
    }
  }
}

/** Sequence helpers shared by the pool and the sync planner. */
module Seqs {

  /** The set of elements of a sequence (what a `contains` on a Rust `Vec` tests). */
  function Elems<T>(s: seq<T>): set<T>
  {
    set x | x in s
  }

  /** No element occurs twice (the negation of `has_duplicates`). */
  predicate NoDuplicates<T(==)>(s: seq<T>)
  {
    forall i, j :: 0 <= i < j < |s| ==> s[i] != s[j]
  }

  /** `s` with every element after its first occurrence dropped: what a loop that pushes
      an element only when a `seen` set does not hold it yet produces. */
  function Dedup<T(==)>(s: seq<T>): (r: seq<T>)
    ensures NoDuplicates(r)
    ensures Elems(r) == Elems(s)
  {
    if s == [] then []
    else
      var d := Dedup(s[..|s| - 1]);
      assert s == s[..|s| - 1] + [s[|s| - 1]];
      assert Elems(s) == Elems(s[..|s| - 1]) + {s[|s| - 1]};
      assert Elems(d + [s[|s| - 1]]) == Elems(d) + {s[|s| - 1]};
      if s[|s| - 1] in d then d else d + [s[|s| - 1]]
  }

  /** De-duplicating a prefix gives a prefix of the de-duplicated whole: an element kept
      early is never moved later by what follows it. */
  lemma {:induction false} DedupPrefix<T>(s: seq<T>, t: seq<T>)
    ensures Dedup(s) <= Dedup(s + t)
  {
    if t != [] {
      var u := s + t[..|t| - 1];
      DedupPrefix(s, t[..|t| - 1]);
      assert (s + t)[..|s + t| - 1] == u;
    } else {
      assert s + t == s;
    }
  }

  /** The same, stated for any prefix `s` of `u`. */
  lemma DedupMonotone<T>(s: seq<T>, u: seq<T>)
    requires s <= u
    ensures Dedup(s) <= Dedup(u)
  {
    DedupPrefix(s, u[|s|..]);
    assert s + u[|s|..] == u;
  }

  /** A sequence without duplicates is its own de-duplication. */
  lemma {:induction false} DedupOfDistinct<T>(s: seq<T>)
    requires NoDuplicates(s)
    ensures Dedup(s) == s
  {
    if s != [] {
      var init := s[..|s| - 1];
      DedupOfDistinct(init);
      assert s[|s| - 1] !in init;
      assert init + [s[|s| - 1]] == s;
    }
  }

  lemma ElemsSnoc<T>(s: seq<T>, x: T)
    ensures Elems(s + [x]) == Elems(s) + {x}
  {
  }

  /** Appending an element not yet present keeps a sequence free of duplicates. */
  lemma AppendFresh<T>(s: seq<T>, x: T)
    requires NoDuplicates(s) && x !in s
    ensures NoDuplicates(s + [x])
    ensures Elems(s + [x]) == Elems(s) + {x}
  {
  }

  /** Appending to a sequence extends its de-duplication by the new element exactly when
      the element is new. */
  lemma DedupSnoc<T>(s: seq<T>, x: T)
    ensures Dedup(s + [x]) == if x in s then Dedup(s) else Dedup(s) + [x]
  {
    assert (s + [x])[..|s|] == s;
    assert x in s <==> x in Elems(Dedup(s));
  }

  /** In a duplicate-free sequence, an element that also occurs in a prefix of it sits inside
      that prefix. */
  lemma InPrefixIndex<T>(d: seq<T>, all: seq<T>, q: nat)
    requires d <= all && NoDuplicates(all) && q < |all| && all[q] in d
    ensures q < |d|
  {
    var r :| 0 <= r < |d| && d[r] == all[q];
    assert all[r] == all[q];
  }

  /** A duplicate-free sequence is as long as its set of elements is large. */
  lemma {:induction false} NoDuplicatesCard<T>(s: seq<T>)
    requires NoDuplicates(s)
    ensures |Elems(s)| == |s|
  {
    if s != [] {
      var init := s[..|s| - 1];
      NoDuplicatesCard(init);
      assert s == init + [s[|s| - 1]];
      ElemsSnoc(init, s[|s| - 1]);
    }
  }

  /** Dropping the last element of a list without repeats leaves a list without repeats
      that does not hold that element. */
  lemma NoDuplicatesInit<T>(s: seq<T>)
    requires s != [] && NoDuplicates(s)
    ensures NoDuplicates(s[..|s| - 1]) && s[|s| - 1] !in s[..|s| - 1]
  {
    var init := s[..|s| - 1];
    forall i | 0 <= i < |init| ensures init[i] != s[|s| - 1] {
      assert init[i] == s[i];
    }
  }
}

/** Table-driven rendering of a bit set: an ordered table of (bit, name)
    pairs is walked in order and the name of every entry whose bit meets the
    word is reported, as both renderers in fm.cc do. */
module FlagTable {
  import opened Common

  /** One row of a rendering table: `{ value, "NAME" }`. */
  datatype Entry = Entry(value: bv64, name: string)

  /** `word & value` is non-zero. */
  predicate Meets(word: bv64, value: bv64)
  {
    word & value != 0
  }

  /** The test `word & table[i].value` of the renderers' loops. */
  predicate Hit(e: Entry, word: bv64)
  {
    Meets(word, e.value)
  }

  /** The names of the entries that `word` hits, in table order. */
  function Selected(table: seq<Entry>, word: bv64): (names: seq<string>)
    ensures |names| <= |table|
  {
    if table == [] then []
    else
      var last := table[|table| - 1];
      Selected(table[..|table| - 1], word) + (if Hit(last, word) then [last.name] else [])
  }

  /** The positions, in the table, of the entries that `word` hits. */
  function HitIndices(table: seq<Entry>, word: bv64): seq<nat>
  {
    if table == [] then []
    else
      var n := |table| - 1;
      HitIndices(table[..n], word) + (if Hit(table[n], word) then [n] else [])
  }

  predicate Increasing(idx: seq<nat>)
  {
    forall j, k :: 0 <= j < k < |idx| ==> idx[j] < idx[k]
  }

  /** One more table row adds its name exactly when it meets the word. */
  lemma SelectedStep(table: seq<Entry>, i: nat, word: bv64)
    requires i < |table|
    ensures Selected(table[..i + 1], word)
         == Selected(table[..i], word) + (if Hit(table[i], word) then [table[i].name] else [])
  {
    assert table[..i + 1][..i] == table[..i];
    assert table[..i + 1][i] == table[i];
  }

  /** The rendering lists exactly the hit entries, each once, in table order:
      the k-th selected name is the name of the k-th hit entry, the hit
      positions increase, and a position is among them exactly when its
      entry is hit. */
  lemma {:induction false} SelectedInTableOrder(table: seq<Entry>, word: bv64)
    ensures var idx := HitIndices(table, word);
      && |Selected(table, word)| == |idx|
      && Increasing(idx)
      && (forall k :: 0 <= k < |idx| ==> idx[k] < |table| && Selected(table, word)[k] == table[idx[k]].name)
      && (forall i :: 0 <= i < |table| ==> (Hit(table[i], word) <==> i in idx))
  {
    SelectedAtHits(table, word);
    HitIndicesExact(table, word);
  }

  /** The k-th selected name is the name at the k-th hit position, and the
      hit positions increase. */
  lemma {:induction false} SelectedAtHits(table: seq<Entry>, word: bv64)
    ensures var idx := HitIndices(table, word);
      && |Selected(table, word)| == |idx|
      && Increasing(idx)
      && (forall k :: 0 <= k < |idx| ==> idx[k] < |table| && Selected(table, word)[k] == table[idx[k]].name)
  {
    if table != [] {
      var n := |table| - 1;
      var front := table[..n];
      SelectedAtHits(front, word);
      assert forall i :: 0 <= i < n ==> front[i] == table[i];
    }
  }

  /** A position is a hit position exactly when its entry is hit. */
  lemma {:induction false} HitIndicesExact(table: seq<Entry>, word: bv64)
    ensures forall i :: 0 <= i < |table| ==> (Hit(table[i], word) <==> i in HitIndices(table, word))
  {
    if table != [] {
      var n := |table| - 1;
      var front := table[..n];
      HitIndicesExact(front, word);
      var idx0 := HitIndices(front, word);
      var idx := HitIndices(table, word);
      if Hit(table[n], word) {
        assert idx == idx0 + [n];
        HitIndexAppended(table, word, idx0, idx);
      } else {
        assert idx == idx0;
        assert forall i :: 0 <= i < n ==> front[i] == table[i];
        SelectedAtHits(front, word);
        assert n !in idx0;
      }
    }
  }

  lemma HitIndexAppended(table: seq<Entry>, word: bv64, idx0: seq<nat>, idx: seq<nat>)
    requires table != [] && idx == idx0 + [|table| - 1] && Hit(table[|table| - 1], word)
    requires forall i :: 0 <= i < |table| - 1 ==> (Hit(table[..|table| - 1][i], word) <==> i in idx0)
    ensures forall i :: 0 <= i < |table| ==> (Hit(table[i], word) <==> i in idx)
  {
    forall i | 0 <= i < |table| ensures Hit(table[i], word) <==> i in idx {
      if i < |table| - 1 {
        assert table[..|table| - 1][i] == table[i];
        assert i in idx <==> i in idx0;
      }
    }
  }

  /** Every name in the table is non-empty and free of `|`. */
  predicate PlainTable(table: seq<Entry>)
  {
    forall i :: 0 <= i < |table| ==> table[i].name != "" && '|' !in table[i].name
  }

  lemma {:induction false} PlainSelection(table: seq<Entry>, word: bv64)
    requires PlainTable(table)
    ensures PlainNames(Selected(table, word))
  {
    SelectedInTableOrder(table, word);
    var sel := Selected(table, word);
    var idx := HitIndices(table, word);
    forall k | 0 <= k < |sel| ensures sel[k] != "" && '|' !in sel[k] {
      assert sel[k] == table[idx[k]].name;
    }
  }

  /** Every bit some table entry mentions. */
  function Covered(table: seq<Entry>): bv64
  {
    if table == [] then 0 else Covered(table[..|table| - 1]) | table[|table| - 1].value
  }

  lemma {:induction false} CoveredIncludes(table: seq<Entry>, i: nat)
    requires i < |table|
    ensures table[i].value & Covered(table) == table[i].value
  {
    var n := |table| - 1;
    if i < n {
      CoveredIncludes(table[..n], i);
    }
  }

  /** Two words that hit the same entries render the same names. */
  lemma {:induction false} SameHitsSameNames(table: seq<Entry>, w1: bv64, w2: bv64)
    requires forall i :: 0 <= i < |table| ==> (Hit(table[i], w1) <==> Hit(table[i], w2))
    ensures Selected(table, w1) == Selected(table, w2)
  {
    if table != [] {
      var n := |table| - 1;
      assert forall i :: 0 <= i < n ==> table[..n][i] == table[i];
      SameHitsSameNames(table[..n], w1, w2);
    }
  }

  /** Masking `w` with a superset `c` of `v` does not change whether it meets `v`. */
  lemma MaskThrough(w: bv64, c: bv64, v: bv64)
    requires v & c == v
    ensures Meets(w, v) == Meets(w & c, v)
  {
    assert (w & c) & v == w & v;
  }

  lemma HitThrough(e: Entry, w: bv64, c: bv64)
    requires e.value & c == e.value
    ensures Hit(e, w) <==> Hit(e, w & c)
  {
    MaskThrough(w, c, e.value);
  }

  /** Bits that no entry mentions contribute nothing to the rendering. */
  lemma UnknownBitsIgnored(table: seq<Entry>, word: bv64)
    ensures Selected(table, word) == Selected(table, word & Covered(table))
  {
    var c := Covered(table);
    var known := word & c;
    forall i | 0 <= i < |table| ensures Hit(table[i], word) <==> Hit(table[i], known) {
      CoveredIncludes(table, i);
      HitThrough(table[i], word, c);
    }
    SameHitsSameNames(table, word, known);
  }

  /** A zero word selects nothing. */
  lemma {:induction false} ZeroSelectsNothing(table: seq<Entry>)
    ensures Selected(table, 0) == []
  {
    if table != [] {
      ZeroSelectsNothing(table[..|table| - 1]);
    }
  }

  /** The walk of `operator<<(FanMask)`: `sep` starts empty and becomes `|`
      after the first name written, so the output is the `|`-join of the
      selected names. */
  method RenderMask(table: seq<Entry>, mask: bv64) returns (s: string)
    ensures s == Join(Selected(table, mask))
  {
    var sep := "";
    s := "";
    var i := 0;
    while i < |table|
      invariant 0 <= i <= |table|
      invariant s == Join(Selected(table[..i], mask))
      invariant sep == if Selected(table[..i], mask) == [] then "" else "|"
    {
      assert table[..i + 1][..i] == table[..i];
      assert table[..i + 1][i] == table[i];
      if Hit(table[i], mask) {
        assert Selected(table[..i + 1], mask) == Selected(table[..i], mask) + [table[i].name];
        JoinSnoc(Selected(table[..i], mask), table[i].name);
        assert [] + [table[i].name] == [table[i].name];
        s := s + sep + table[i].name;
        sep := "|";
      } else {
        assert Selected(table[..i + 1], mask) == Selected(table[..i], mask);
      }
      i := i + 1;
    }
    assert table[..i] == table;
  }
}

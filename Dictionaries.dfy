/**
 * The `ToDictionary` loop shared by `CsvStream` (both source trees) and `CsvTable`: for every column index below the
 * column count, the header name at that index is mapped to the row's field at that index, a later index overwriting
 * an earlier one with the same name.
 */
module Dictionaries {

  /** The dictionary after the first `n` assignments `res[h[i]] = row[i]`. */
  function DictOf(h: seq<string>, row: seq<string>, n: nat): (m: map<string, string>)
    requires n <= |h| && n <= |row|
    ensures m.Keys == set i | 0 <= i < n :: h[i]
    decreases n
  {
    if n == 0 then map[] else DictOf(h, row, n - 1)[h[n - 1] := row[n - 1]]
  }

  /** The dictionary has at most `n` entries, whatever the row length. */
  lemma {:induction false} DictSize(h: seq<string>, row: seq<string>, n: nat)
    requires n <= |h| && n <= |row|
    ensures |DictOf(h, row, n)| <= n
    decreases n
  {
    if n > 0 {
      DictSize(h, row, n - 1);
      UpdateSize(DictOf(h, row, n - 1), h[n - 1], row[n - 1]);
    }
  }

  lemma UpdateSize(m: map<string, string>, k: string, v: string)
    ensures |m[k := v]| <= |m| + 1
  {
    if k in m {
      assert m[k := v].Keys == m.Keys;
    } else {
      assert m[k := v].Keys == m.Keys + {k};
    }
  }

  /** A name maps to the field of the last index below `n` that carries it. */
  lemma {:induction false} DictLastWins(h: seq<string>, row: seq<string>, n: nat, i: nat)
    requires n <= |h| && n <= |row| && i < n
    requires forall j :: i < j < n ==> h[j] != h[i]
    ensures h[i] in DictOf(h, row, n) && DictOf(h, row, n)[h[i]] == row[i]
    decreases n
  {
    if i < n - 1 {
      DictLastWins(h, row, n - 1, i);
    }
  }

  /** With distinct names, every column appears with its own field and the dictionary has exactly `n` entries. */
  lemma DictDistinct(h: seq<string>, row: seq<string>, n: nat)
    requires n <= |h| && n <= |row|
    requires forall i, j :: 0 <= i < j < n ==> h[i] != h[j]
    ensures forall i :: 0 <= i < n ==> DictOf(h, row, n)[h[i]] == row[i]
    ensures |DictOf(h, row, n)| == n
  {
    forall i | 0 <= i < n ensures DictOf(h, row, n)[h[i]] == row[i] {
      DictLastWins(h, row, n, i);
    }
    DistinctCount(h, n);
  }

  lemma {:induction false} DistinctCount(h: seq<string>, n: nat)
    requires n <= |h|
    requires forall i, j :: 0 <= i < j < n ==> h[i] != h[j]
    ensures |set i | 0 <= i < n :: h[i]| == n
    decreases n
  {
    if n > 0 {
      DistinctCount(h, n - 1);
      var s := set i | 0 <= i < n - 1 :: h[i];
      assert (set i | 0 <= i < n :: h[i]) == s + {h[n - 1]};
      assert h[n - 1] !in s;
    }
  }

  /** The source's one-line loop: for each index below `count`, the entry for the header name at that index is set
      to the row's field at that index. */
  method FillDictionary(h: seq<string>, row: seq<string>, count: nat) returns (res: map<string, string>)
    requires count <= |h| && count <= |row|
    ensures res == DictOf(h, row, count)
  {
    res := map[];
    var i := 0;
    while i < count
      invariant 0 <= i <= count && res == DictOf(h, row, i)
    {
      res := res[h[i] := row[i]];
      i := i + 1;
    }
  }
}

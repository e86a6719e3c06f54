/** Characters, bytes and the few string operations of .NET the core relies on. */
module Text {

  newtype byte = x: int | 0 <= x < 256

  function Min(a: int, b: int): int { if a <= b then a else b }

  /** Decoding as the identity on single-byte text: byte b becomes the character with code b. */
  function DecodeBytes(bs: seq<byte>): (s: string)
    ensures |s| == |bs|
    ensures forall i :: 0 <= i < |bs| ==> s[i] as int == bs[i] as int
  {
    seq(|bs|, i requires 0 <= i < |bs| => (bs[i] as int) as char)
  }

  /** Encoding as the identity on single-byte text; a character of code 256 or more keeps its low byte. */
  function EncodeText(s: string): (bs: seq<byte>)
    ensures |bs| == |s|
    ensures forall i :: 0 <= i < |s| ==> bs[i] as int == s[i] as int % 256
  {
    seq(|s|, i requires 0 <= i < |s| => (s[i] as int % 256) as byte)
  }

  ghost predicate SingleByte(s: string) {
    forall i :: 0 <= i < |s| ==> s[i] as int < 256
  }

  lemma DecodeEncode(s: string)
    requires SingleByte(s)
    ensures DecodeBytes(EncodeText(s)) == s
  {
    var d := DecodeBytes(EncodeText(s));
    assert |d| == |s|;
    forall i | 0 <= i < |s| ensures d[i] == s[i] {
      assert d[i] as int == s[i] as int;
    }
  }

  lemma EncodeConcat(a: string, b: string)
    ensures EncodeText(a + b) == EncodeText(a) + EncodeText(b)
  {
    var l, r := EncodeText(a + b), EncodeText(a) + EncodeText(b);
    assert |l| == |r|;
    forall i | 0 <= i < |l| ensures l[i] == r[i] {
      if i < |a| { assert (a + b)[i] == a[i]; } else { assert (a + b)[i] == b[i - |a|]; }
    }
  }

  /** The `csv += "\n"` normalisation the tokenizer's entry points apply when the text does not end in a newline. */
  function EnsureNewline(s: string): (r: string)
    ensures |r| > 0 && r[|r| - 1] == '\n'
    ensures r == s || r == s + "\n"
    ensures r == s <==> |s| > 0 && s[|s| - 1] == '\n'
  {
    if |s| > 0 && s[|s| - 1] == '\n' then s else s + "\n"
  }

  /** `string.Join(sep, parts)`. */
  function Join(sep: char, parts: seq<string>): string
  {
    if |parts| == 0 then ""
    else if |parts| == 1 then parts[0]
    else parts[0] + [sep] + Join(sep, parts[1..])
  }

  function DigitChar(d: nat): char
    requires d < 10
  {
    "0123456789"[d]
  }

  /** `int.ToString()` for a non-negative number. */
  function NatToString(n: nat): (s: string)
    ensures |s| > 0
    ensures forall i :: 0 <= i < |s| ==> '0' <= s[i] <= '9'
  {
    if n < 10 then [DigitChar(n)] else NatToString(n / 10) + [DigitChar(n % 10)]
  }

  /** `Enumerable.Range(0, n).Select(i => i.ToString())`: the positional column names "0" .. "n-1". */
  function IndexNames(n: nat): (names: seq<string>)
    ensures |names| == n
  {
    seq(n, i requires 0 <= i < n => NatToString(i))
  }

  /** `data.Take(n)` and `data.Skip(n)`: both tolerate a count beyond the end and a negative count. */
  function Take<T>(s: seq<T>, n: int): (r: seq<T>)
    ensures |r| == if n <= 0 then 0 else Min(n, |s|)
  {
    if n <= 0 then [] else s[..Min(n, |s|)]
  }

  function Skip<T>(s: seq<T>, n: int): (r: seq<T>)
    ensures |r| == if n <= 0 then |s| else |s| - Min(n, |s|)
  {
    if n <= 0 then s else s[Min(n, |s|)..]
  }

  /** `string.Split(d)`: the pieces between the occurrences of `d`. */
  function Split(s: string, d: char): (parts: seq<string>)
    ensures |parts| > 0
    decreases |s|
  {
    if |s| == 0 then [""]
    else
      var t := Split(s[1..], d);
      if s[0] == d then [""] + t else [[s[0]] + t[0]] + t[1..]
  }

  /** Joining the pieces of a split gives the text back. */
  lemma {:induction false} JoinSplit(s: string, d: char)
    ensures Join(d, Split(s, d)) == s
    decreases |s|
  {
    if |s| > 0 {
      var t := Split(s[1..], d);
      JoinSplit(s[1..], d);
      if s[0] == d {
        assert Join(d, [""] + t) == "" + [d] + Join(d, t) by { assert ([""] + t)[1..] == t; }
      } else if |t| == 1 {
        assert Join(d, t) == t[0];
      } else {
        var u := [[s[0]] + t[0]] + t[1..];
        assert u[1..] == t[1..];
        assert Join(d, u) == [s[0]] + t[0] + [d] + Join(d, t[1..]);
        assert Join(d, t) == t[0] + [d] + Join(d, t[1..]);
      }
    }
  }

  lemma {:induction false} JoinSnoc(d: char, ps: seq<string>, x: string)
    ensures Join(d, ps + [x]) == if |ps| == 0 then x else Join(d, ps) + [d] + x
    decreases |ps|
  {
    if |ps| == 0 {
      assert ps + [x] == [x];
    } else if |ps| == 1 {
      assert ps + [x] == [ps[0], x];
      assert [ps[0], x][1..] == [x];
    } else {
      assert (ps + [x])[1..] == ps[1..] + [x];
      JoinSnoc(d, ps[1..], x);
    }
  }
}

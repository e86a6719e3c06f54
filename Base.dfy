/**
 * The base stream a `CsvStream` wraps, with the semantics of a .NET `MemoryStream`: a byte sequence and a position.
 * `maxRead` is the most bytes one `Read` call delivers (a .NET `Stream.Read` may always deliver fewer than asked for),
 * which makes the readers' short-read checks reachable.
 */
module Base {
  import opened Wrappers
  import opened Text

  /** The bytes of `d` from position `p` on replaced by `a`, the sequence growing where `a` runs past its end. */
  function Overwrite(d: seq<byte>, p: nat, a: seq<byte>): (r: seq<byte>)
    requires p <= |d|
    ensures |r| == if p + |a| <= |d| then |d| else p + |a|
  {
    OverwriteFrom(d, p, a, 0)
  }

  /** The bytes `a[k..]` written one at a time from position `p + k` on. */
  function OverwriteFrom(d: seq<byte>, p: nat, a: seq<byte>, k: nat): (r: seq<byte>)
    requires k <= |a| && p + k <= |d|
    ensures |r| == if p + |a| <= |d| then |d| else p + |a|
    decreases |a| - k
  {
    if k == |a| then d else OverwriteFrom(Put(d, p + k, a[k]), p, a, k + 1)
  }

  /** One byte written at position `p`: replaced inside the data, appended at its end. */
  function Put(d: seq<byte>, p: nat, b: byte): (r: seq<byte>)
    requires p <= |d|
    ensures |r| == if p < |d| then |d| else |d| + 1
  {
    if p < |d| then d[p := b] else d + [b]
  }

  /** What an overwrite keeps and what it puts: the bytes before `p`, then `a`, then the old bytes after it. */
  lemma OverwriteSlices(d: seq<byte>, p: nat, a: seq<byte>)
    requires p <= |d|
    ensures var r := Overwrite(d, p, a);
            && r[..p] == d[..p] && r[p..p + |a|] == a
            && (p + |a| <= |d| ==> r[p + |a|..] == d[p + |a|..])
  {
    FromSlices(d, p, a, 0);
  }

  lemma {:induction false} FromSlices(d: seq<byte>, p: nat, a: seq<byte>, k: nat)
    requires k <= |a| && p + k <= |d| && d[p..p + k] == a[..k]
    ensures var r := OverwriteFrom(d, p, a, k);
            && r[..p] == d[..p] && r[p..p + |a|] == a
            && (p + |a| <= |d| ==> r[p + |a|..] == d[p + |a|..])
    decreases |a| - k
  {
    if k < |a| {
      var d1 := Put(d, p + k, a[k]);
      PutSlices(d, p + k, a[k]);
      assert d1[p..p + k + 1] == a[..k + 1] by {
        assert d1[p..p + k + 1] == d1[..p + k][p..] + [d1[p + k]];
        assert d1[..p + k][p..] == d[..p + k][p..] == d[p..p + k];
        assert a[..k + 1] == a[..k] + [a[k]];
      }
      FromSlices(d1, p, a, k + 1);
      assert d1[..p] == d1[..p + k][..p] == d[..p + k][..p] == d[..p];
      if p + |a| <= |d| {
        assert d1[p + |a|..] == d1[p + k + 1..][|a| - k - 1..] == d[p + k + 1..][|a| - k - 1..] == d[p + |a|..];
      }
    } else {
      assert a[..k] == a;
    }
  }

  lemma PutSlices(d: seq<byte>, p: nat, b: byte)
    requires p <= |d|
    ensures var r := Put(d, p, b);
            r[..p] == d[..p] && r[p] == b && (p < |d| ==> r[p + 1..] == d[p + 1..])
  {
  }

  /** Writing nothing changes nothing. */
  lemma OverwriteNothing(d: seq<byte>, p: nat)
    requires p <= |d|
    ensures Overwrite(d, p, []) == d
  {
  }

  /** At the end of the data, writing appends. */
  lemma OverwriteAtEnd(d: seq<byte>, a: seq<byte>)
    ensures Overwrite(d, |d|, a) == d + a
  {
    assert a[..0] == [];
    assert d + a[..0] == d;
    AppendFrom(d, a, 0);
  }

  lemma {:induction false} AppendFrom(d: seq<byte>, a: seq<byte>, k: nat)
    requires k <= |a|
    ensures OverwriteFrom(d + a[..k], |d|, a, k) == d + a
    decreases |a| - k
  {
    if k < |a| {
      assert (d + a[..k]) + [a[k]] == d + a[..k + 1] by {
        assert a[..k + 1] == a[..k] + [a[k]];
      }
      AppendFrom(d, a, k + 1);
    } else {
      assert a[..k] == a;
    }
  }

  /** Two writes one after the other are one write of both. */
  lemma OverwriteTwice(d: seq<byte>, p: nat, a: seq<byte>, b: seq<byte>)
    requires p <= |d|
    ensures Overwrite(Overwrite(d, p, a), p + |a|, b) == Overwrite(d, p, a + b)
  {
    TwiceFrom(d, p, a, b, 0);
  }

  lemma {:induction false} TwiceFrom(d: seq<byte>, p: nat, a: seq<byte>, b: seq<byte>, k: nat)
    requires k <= |a| && p + k <= |d|
    ensures OverwriteFrom(OverwriteFrom(d, p, a, k), p + |a|, b, 0) == OverwriteFrom(d, p, a + b, k)
    decreases |a| - k
  {
    if k < |a| {
      assert (a + b)[k] == a[k];
      TwiceFrom(Put(d, p + k, a[k]), p, a, b, k + 1);
    } else {
      ShiftFrom(d, p, a, b, 0);
    }
  }

  lemma {:induction false} ShiftFrom(d: seq<byte>, p: nat, a: seq<byte>, b: seq<byte>, j: nat)
    requires j <= |b| && p + |a| + j <= |d|
    ensures OverwriteFrom(d, p + |a|, b, j) == OverwriteFrom(d, p, a + b, |a| + j)
    decreases |b| - j
  {
    if j < |b| {
      assert (a + b)[|a| + j] == b[j];
      ShiftFrom(Put(d, p + |a| + j, b[j]), p, a, b, j + 1);
    }
  }

  class ByteStream {
    var data: seq<byte>
    var position: nat
    var maxRead: nat
    var closed: bool

    ghost predicate Valid()
      reads this
    {
      position <= |data|
    }

    /** The bytes not read yet. */
    ghost function Rest(): seq<byte>
      reads this
      requires Valid()
    {
      data[position..]
    }

    constructor (data: seq<byte>, maxRead: nat)
      ensures Valid() && this.data == data && position == 0 && this.maxRead == maxRead && !closed
    {
      this.data, this.position, this.maxRead, this.closed := data, 0, maxRead, false;
    }

    /** How many bytes a `Read` of `count` bytes delivers: no more than asked for, than one call may deliver, and than
        are left. */
    function Delivered(count: nat): (n: nat)
      reads this
      requires Valid()
      ensures n <= count && n <= maxRead && position + n <= |data|
      ensures n == count <==> count <= maxRead && position + count <= |data|
    {
      Min(Min(count, maxRead), |data| - position)
    }

    /** `Read(buffer, offset, count)`: copies the delivered bytes to `buffer[offset..]` and advances the position.
        A count that does not fit the buffer from the offset is an `ArgumentException`. */
    method Read(buffer: array<byte>, offset: nat, count: nat) returns (r: Result<nat>)
      requires Valid()
      modifies this`position, buffer
      ensures Valid()
      ensures offset + count > buffer.Length ==> r.Err? && r.error.Argument? && unchanged(this) && unchanged(buffer)
      ensures offset + count <= buffer.Length ==>
                var n := old(Delivered(count));
                && r == Ok(n)
                && position == old(position) + n
                && buffer[..offset] == old(buffer[..offset])
                && buffer[offset..offset + n] == old(data[position..position + n])
                && buffer[offset + n..] == old(buffer[offset + n..])
    {
      if offset + count > buffer.Length {
        return Err(Argument("Offset and length were out of bounds"));
      }
      var n := Delivered(count);
      var k := 0;
      while k < n
        invariant 0 <= k <= n && position == old(position)
        invariant forall j :: 0 <= j < buffer.Length && !(offset <= j < offset + k) ==> buffer[j] == old(buffer[j])
        invariant forall j :: offset <= j < offset + k ==> buffer[j] == data[position + j - offset]
      {
        buffer[offset + k] := data[position + k];
        k := k + 1;
      }
      ghost var got, want := buffer[offset..offset + n], data[position..position + n];
      assert got == want by {
        forall j | 0 <= j < n ensures got[j] == want[j] {
          assert buffer[offset + j] == data[position + j];
        }
      }
      position := position + n;
      return Ok(n);
    }

    /** `Write(buffer, 0, buffer.Length)`. */
    method Write(bytes: seq<byte>)
      requires Valid()
      modifies this`data, this`position
      ensures Valid()
      ensures data == Overwrite(old(data), old(position), bytes) && position == old(position) + |bytes|
    {
      data := Overwrite(data, position, bytes);
      position := position + |bytes|;
    }

    /** The `Position` setter, for a position inside the data (the only kind the readers restore). */
    method Seek(p: nat)
      requires p <= |data|
      modifies this`position
      ensures position == p
    {
      position := p;
    }

    method Close()
      modifies this`closed
      ensures closed
    {
      closed := true;
    }
  }
}

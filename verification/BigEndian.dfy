// encoding/binary.BigEndian together with Go's signed conversions.  Put writes the
// two's complement of ANY integer in n bytes, so a wrapping conversion such as
// uint32(len(b)) is what Put(4, |b|) does; Get reads a signed value back.
module BigEndian {
  import opened Types

  function Put(n: nat, v: int): (s: seq<byte>)
    ensures |s| == n
  {
    if n == 0 then [] else Put(n - 1, v / 256) + [v % 256]
  }

  function Get(s: seq<byte>): int
    requires |s| > 0
  {
    var last := s[|s| - 1];
    if |s| == 1 then (if last < 128 then last else last - 256)
    else Get(s[..|s| - 1]) * 256 + last
  }

  // Half the number of values of an n-byte integer.
  function Half(n: nat): int
    requires n > 0
  {
    if n == 1 then 0x80 else 256 * Half(n - 1)
  }

  // Reading undoes writing for every value of the width ...
  lemma {:induction false} GetPut(n: nat, v: int)
    requires n > 0 && -Half(n) <= v < Half(n)
    ensures Get(Put(n, v)) == v
  {
    if n == 1 {
      assert Put(0, v / 256) == [];
    } else {
      GetPut(n - 1, v / 256);
      assert Put(n, v)[..n - 1] == Put(n - 1, v / 256);
    }
  }

  // ... and writing undoes reading for every byte sequence.
  lemma {:induction false} PutGet(s: seq<byte>)
    requires |s| > 0
    ensures -Half(|s|) <= Get(s) < Half(|s|)
    ensures Put(|s|, Get(s)) == s
  {
    var front := s[..|s| - 1];
    assert s == front + [s[|s| - 1]];
    if |s| > 1 {
      PutGet(front);
      assert Get(s) / 256 == Get(front);
    } else {
      assert Put(0, Get(s) / 256) == front;
    }
  }

  // ----- The byte order -----

  function Power256(k: nat): (p: int)
    ensures p > 0
  {
    if k == 0 then 1 else 256 * Power256(k - 1)
  }

  // Byte i of an n-byte integer is its digit of weight 256^(n-1-i): most significant first.
  lemma {:induction false} PutAt(n: nat, v: int, i: nat)
    requires i < n
    ensures Put(n, v)[i] == v / Power256(n - 1 - i) % 256
  {
    if i < n - 1 {
      PutAt(n - 1, v / 256, i);
      DivDiv(v, Power256(n - 2 - i));
    }
  }

  lemma DivDiv(v: int, p: int)
    requires p > 0
    ensures v / (256 * p) == v / 256 / p
  {
    var q, r := v / 256 / p, v / 256 % p;
    var rem := 256 * r + v % 256;
    assert v / 256 == q * p + r;
    assert v == q * (256 * p) + rem;
    assert 0 <= rem < 256 * p;
    DivUnique(v, 256 * p, q, rem);
  }

  lemma DivUnique(v: int, d: int, q: int, r: int)
    requires 0 <= r < d && v == q * d + r
    ensures v / d == q
  {
    var q', r' := v / d, v % d;
    assert v == q' * d + r';
    Distributes(q, q', d);
    if q' < q {
      AtLeast(q - q', d);
    } else if q < q' {
      AtLeast(q' - q, d);
    }
  }

  lemma Distributes(a: int, b: int, d: int)
    ensures (a - b) * d == a * d - b * d
  {}

  lemma AtLeast(k: int, d: int)
    requires k >= 1 && d > 0
    ensures k * d >= d
  {}

  // So the length fields of all formats read from the most significant byte on.
  lemma PutBytes(v: int)
    ensures Put(1, v) == [v % 256]
    ensures Put(2, v) == [v / 0x100 % 256, v % 256]
    ensures Put(4, v) == [v / 0x100_0000 % 256, v / 0x1_0000 % 256, v / 0x100 % 256, v % 256]
  {
    assert Power256(1) == 0x100 && Power256(2) == 0x1_0000 && Power256(3) == 256 * Power256(2);
    PutAt(1, v, 0);
    PutAt(2, v, 0);
    PutAt(2, v, 1);
    PutAt(4, v, 0);
    PutAt(4, v, 1);
    PutAt(4, v, 2);
    PutAt(4, v, 3);
  }

  lemma {:induction false} PutNothing(n: nat)
    ensures Put(n, 0) == seq(n, _ => 0)
  {
    if n > 0 {
      PutNothing(n - 1);
    }
  }

  lemma PutSmall(v: int)
    requires 0 <= v < 0x1_0000
    ensures Put(8, v) == [0, 0, 0, 0, 0, 0, v / 0x100, v % 0x100]
  {
    PutNothing(6);
    assert Put(7, v / 0x100) == Put(6, 0) + [v / 0x100];
    assert Put(8, v) == Put(7, v / 0x100) + [v % 0x100];
  }

  // A signed value is its bytes' weighted sum, the first byte signed.
  lemma GetSigned(s: seq<byte>)
    requires |s| == 4
    ensures var a: int, b: int, c: int, d: int := s[0], s[1], s[2], s[3];
            Get(s) == (if a < 128 then a else a - 256) * 0x100_0000 + b * 0x1_0000 + c * 0x100 + d
  {
    assert s[..3][2] == s[2] && s[..3][..2] == s[..2] && s[..2][1] == s[1] && s[..2][..1] == [s[0]];
    assert Get(s) == Get(s[..3]) * 256 + s[3];
    assert Get(s[..3]) == Get(s[..2]) * 256 + s[2];
    assert Get(s[..2]) == Get([s[0]]) * 256 + s[1];
  }

  lemma OrderExample()
    ensures Put(4, 0x0102_0304) == [1, 2, 3, 4] && Get([1, 2, 3, 4]) == 0x0102_0304
  {
    assert Put(1, 0x01) == [1];
    assert Put(2, 0x0102) == [1, 2];
    assert Put(3, 0x01_0203) == [1, 2, 3];
    GetSigned([1, 2, 3, 4]);
  }

  lemma Widths()
    ensures Half(1) == 0x80 && Half(2) == 0x8000 && Half(4) == 0x8000_0000
    ensures Half(8) == 0x8000_0000_0000_0000
  {
    assert Half(3) == 256 * Half(2);
    assert Half(5) == 256 * Half(4);
    assert Half(7) == 256 * Half(6);
  }

  lemma Shifted(v: int, m: int)
    ensures (v + 256 * m) / 256 == v / 256 + m && (v + 256 * m) % 256 == v % 256
  {}

  // A write only sees the value modulo the width.
  lemma {:induction false} PutWraps(n: nat, v: int, k: int)
    requires n > 0
    ensures Put(n, v + k * (2 * Half(n))) == Put(n, v)
  {
    if n > 1 {
      var m := k * (2 * Half(n - 1));
      assert k * (2 * Half(n)) == 256 * m;
      Shifted(v, m);
      PutWraps(n - 1, v / 256, k);
    } else {
      assert Put(0, (v + k * 256) / 256) == Put(0, v / 256);
    }
  }

  lemma Put4Wraps(v: int, k: int)
    ensures Put(4, v + k * 0x1_0000_0000) == Put(4, v)
  {
    Widths();
    PutWraps(4, v, k);
  }

  // Writing a truncated conversion is writing the number itself.
  lemma PutToInt16(x: int)
    ensures Put(2, ToInt16(x)) == Put(2, x)
  {
    Widths();
    PutWraps(2, x, -((x + 0x8000) / 0x1_0000));
  }

  lemma PutToInt32(x: int)
    ensures Put(4, ToInt32(x)) == Put(4, x)
  {
    Put4Wraps(x, -((x + 0x8000_0000) / 0x1_0000_0000));
  }

  // The unsigned reading of four bytes.
  function GetUint32(s: seq<byte>): uint32
    requires |s| == 4
  {
    Widths();
    PutGet(s);
    Unsigned(Get(s))
  }

  // Go's uint32(v) of an int32.
  function Unsigned(v: int32): uint32 {
    if v < 0 then v + 0x1_0000_0000 else v
  }

  lemma PutUnsigned(v: int32)
    ensures Put(4, Unsigned(v)) == Put(4, v)
  {
    Put4Wraps(v, 1);
  }

  lemma SameUint32(s: seq<byte>, v: uint32)
    requires |s| == 4
    ensures GetUint32(s) == v <==> Put(4, v) == s
  {
    Widths();
    PutGet(s);
    PutUnsigned(Get(s));
    var w := if v < 0x8000_0000 then v else v - 0x1_0000_0000;
    assert v == Unsigned(w);
    PutUnsigned(w);
    GetPut(4, w);
  }
}

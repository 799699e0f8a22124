/** UTF-8 and hexadecimal, as the byte payloads of `ScVal` use them. */
module Utf8 {
  import opened Basics

  function CharBytes(c: char): (b: seq<byte>)
    ensures 1 <= |b| <= 4
  {
    var n := c as int;
    if n < 0x80 then [n]
    else if n < 0x800 then [0xC0 + n / 64, 0x80 + n % 64]
    else if n < 0x1_0000 then [0xE0 + n / 4096, 0x80 + n / 64 % 64, 0x80 + n % 64]
    else [0xF0 + n / 262144, 0x80 + n / 4096 % 64, 0x80 + n / 64 % 64, 0x80 + n % 64]
  }

  /** The bytes of a Rust `str`. */
  function Encode(s: string): (b: seq<byte>)
    ensures |b| >= |s|
  {
    if s == [] then [] else CharBytes(s[0]) + Encode(s[1..])
  }

  lemma CharBytesPrefixFree(c: char, x: seq<byte>, d: char, y: seq<byte>)
    requires CharBytes(c) + x == CharBytes(d) + y
    ensures c == d && x == y
  {
    var p, q := CharBytes(c), CharBytes(d);
    assert (p + x)[0] == p[0] && (q + y)[0] == q[0];
    assert |p| == |q| by { FirstByteGivesLength(c); FirstByteGivesLength(d); }
    assert (p + x)[..|p|] == p && (q + y)[..|p|] == q;
    assert p == q;
    CharOfBytes(c);
    CharOfBytes(d);
    assert (p + x)[|p|..] == x && (q + y)[|p|..] == y;
  }

  lemma FirstByteGivesLength(c: char)
    ensures var b := CharBytes(c);
            |b| == if b[0] < 0x80 then 1 else if b[0] < 0xE0 then 2 else if b[0] < 0xF0 then 3 else 4
  {
  }

  /** The Unicode scalar value a one- to four-byte group stands for. */
  function Scalar(b: seq<int>): int
    requires 1 <= |b| <= 4
  {
    if |b| == 1 then b[0]
    else if |b| == 2 then (b[0] - 0xC0) * 64 + (b[1] - 0x80)
    else if |b| == 3 then (b[0] - 0xE0) * 4096 + (b[1] - 0x80) * 64 + (b[2] - 0x80)
    else (b[0] - 0xF0) * 262144 + (b[1] - 0x80) * 4096 + (b[2] - 0x80) * 64 + (b[3] - 0x80)
  }

  lemma CharOfBytes(c: char)
    ensures Scalar(CharBytes(c)) == c as int
  {
    var n := c as int;
    var h, t := n / 64, n % 64;
    assert n == h * 64 + t;
    if 0x800 <= n {
      SplitTwice(n);
      if 0x1_0000 <= n { SplitTwice(h); }
    }
  }

  lemma SplitTwice(n: nat)
    ensures n == n / 4096 * 4096 + n / 64 % 64 * 64 + n % 64
    ensures n / 64 / 64 == n / 4096
    ensures n / 64 / 4096 == n / 262144
  {
    var h := n / 64;
    var hh := h / 64;
    assert n == h * 64 + n % 64 && h == hh * 64 + h % 64;
    assert n == hh * 4096 + (h % 64 * 64 + n % 64);
  }

  lemma {:induction false} EncodeInjective(s: string, t: string)
    requires Encode(s) == Encode(t)
    ensures s == t
  {
    if s != [] && t != [] {
      CharBytesPrefixFree(s[0], Encode(s[1..]), t[0], Encode(t[1..]));
      EncodeInjective(s[1..], t[1..]);
      assert s == [s[0]] + s[1..] && t == [t[0]] + t[1..];
    }
  }

  /** `std::str::from_utf8`: the text whose encoding these bytes are, if there is one. */
  ghost function Decode(b: seq<byte>): (r: Option<string>)
    ensures r.Some? ==> Encode(r.value) == b
  {
    if exists s: string :: Encode(s) == b then
      var s: string :| Encode(s) == b;
      Some(s)
    else None
  }

  lemma DecodeEncode(s: string)
    ensures Decode(Encode(s)) == Some(s)
  {
    EncodeInjective(s, Decode(Encode(s)).value);
  }
}

module Hex {
  import opened Basics

  function NibbleChar(n: int): (c: char)
    requires 0 <= n < 16
    ensures NibbleOf(c) == Some(n)
  {
    if n < 10 then '0' + (n as char) else 'a' + ((n - 10) as char)
  }

  /** Either letter case is accepted, as in the `hex` crate. */
  function NibbleOf(c: char): (r: Option<int>)
    ensures r.Some? ==> 0 <= r.value < 16
  {
    if '0' <= c <= '9' then Some((c - '0') as int)
    else if 'a' <= c <= 'f' then Some((c - 'a') as int + 10)
    else if 'A' <= c <= 'F' then Some((c - 'A') as int + 10)
    else None
  }

  function Encode(b: seq<byte>): string {
    if b == [] then [] else [NibbleChar(b[0] / 16), NibbleChar(b[0] % 16)] + Encode(b[1..])
  }

  function Decode(s: string): Option<seq<byte>> {
    if s == [] then Some([])
    else if |s| == 1 then None
    else
      match (NibbleOf(s[0]), NibbleOf(s[1]), Decode(s[2..]))
      case (Some(hi), Some(lo), Some(rest)) => Some([hi * 16 + lo] + rest)
      case _ => None
  }

  lemma {:induction false} DecodeEncode(b: seq<byte>)
    ensures Decode(Encode(b)) == Some(b)
  {
    if b != [] {
      DecodeEncode(b[1..]);
      assert Encode(b)[2..] == Encode(b[1..]);
      assert [b[0]] + b[1..] == b;
    }
  }
}

/**
 * The base 64 encoding of section 4 of RFC 4648, with `=` padding, as
 * `java.util.Base64.getEncoder().encodeToString` writes it; the app stores
 * password salts and digests in this form. `Decode` reads the padded text
 * back.
 */
module Base64 {
  import opened Wrappers

  type byte = x: int | 0 <= x < 256

  /** The character of the base 64 alphabet (RFC 4648, table 1) for `i`. */
  function Char(i: int): (c: char)
    requires 0 <= i < 64
    ensures c != '='
  {
    if i < 26 then ('A' as int + i) as char
    else if i < 52 then ('a' as int + i - 26) as char
    else if i < 62 then ('0' as int + i - 52) as char
    else if i == 62 then '+'
    else '/'
  }

  /** The value of an alphabet character; `None` for any other character. */
  function Index(c: char): (r: Option<int>)
    ensures r.Some? ==> 0 <= r.value < 64 && Char(r.value) == c
  {
    if 'A' <= c <= 'Z' then Some(c as int - 'A' as int)
    else if 'a' <= c <= 'z' then Some(c as int - 'a' as int + 26)
    else if '0' <= c <= '9' then Some(c as int - '0' as int + 52)
    else if c == '+' then Some(62)
    else if c == '/' then Some(63)
    else None
  }

  lemma IndexOfChar(i: int)
    requires 0 <= i < 64
    ensures Index(Char(i)) == Some(i)
  {
  }

  /** The encoding: every three bytes become four characters, and a final
      one or two bytes become four characters ending in `==` or `=`. */
  function Encode(b: seq<byte>): (s: string)
    ensures s == [] <==> b == []
    ensures forall i | 0 <= i < |s| - 2 :: s[i] != '='
    decreases |b|
  {
    if |b| == 0 then []
    else if |b| == 1 then
      [Char(b[0] / 4), Char(b[0] % 4 * 16), '=', '=']
    else if |b| == 2 then
      [Char(b[0] / 4), Char(b[0] % 4 * 16 + b[1] / 16), Char(b[1] % 16 * 4), '=']
    else
      var group := [Char(b[0] / 4), Char(b[0] % 4 * 16 + b[1] / 16), Char(b[1] % 16 * 4 + b[2] / 64), Char(b[2] % 64)];
      var rest := Encode(b[3..]);
      PaddingAtEnd(group, rest);
      group + rest
  }

  /** A group without padding followed by text padded only at its end is
      padded only at its end. */
  lemma PaddingAtEnd(group: string, rest: string)
    requires |group| == 4 && '=' !in group
    requires forall i | 0 <= i < |rest| - 2 :: rest[i] != '='
    ensures forall i | 0 <= i < |group + rest| - 2 :: (group + rest)[i] != '='
  {
    forall i | 0 <= i < |group + rest| - 2
      ensures (group + rest)[i] != '='
    {
      if i >= 4 {
        assert (group + rest)[i] == rest[i - 4];
      }
    }
  }

  /** Decodes one group of four characters; padding is accepted only in the
      last group. */
  function DecodeGroup(q: string, last: bool): Option<seq<byte>>
    requires |q| == 4
  {
    var i0, i1 := Index(q[0]), Index(q[1]);
    if i0.None? || i1.None? then None
    else if last && q[2] == '=' && q[3] == '=' then
      Some([i0.value * 4 + i1.value / 16])
    else
      var i2 := Index(q[2]);
      if i2.None? then None
      else if last && q[3] == '=' then
        Some([i0.value * 4 + i1.value / 16, i1.value % 16 * 16 + i2.value / 4])
      else
        var i3 := Index(q[3]);
        if i3.None? then None
        else Some([i0.value * 4 + i1.value / 16, i1.value % 16 * 16 + i2.value / 4, i2.value % 4 * 64 + i3.value])
  }

  /** Decodes padded base 64 text; `None` for text that is not a whole number
      of four-character groups of the alphabet. */
  function Decode(s: string): Option<seq<byte>>
    decreases |s|
  {
    if s == [] then Some([])
    else if |s| < 4 then None
    else
      match DecodeGroup(s[..4], |s| == 4)
      case None => None
      case Some(head) =>
        match Decode(s[4..])
        case None => None
        case Some(tail) => Some(head + tail)
  }

  lemma OneByte(x: byte)
    ensures x / 4 * 4 + x % 4 * 16 / 16 == x
  {
  }

  lemma TwoBytes(x: byte, y: byte)
    ensures x / 4 * 4 + (x % 4 * 16 + y / 16) / 16 == x
    ensures (x % 4 * 16 + y / 16) % 16 * 16 + y % 16 * 4 / 4 == y
  {
    assert (x % 4 * 16 + y / 16) / 16 == x % 4;
    assert (x % 4 * 16 + y / 16) % 16 == y / 16;
  }

  lemma ThreeBytes(x: byte, y: byte, z: byte)
    ensures (y % 16 * 4 + z / 64) / 4 == y % 16
    ensures (y % 16 * 4 + z / 64) % 4 * 64 + z % 64 == z
  {
    assert (y % 16 * 4 + z / 64) % 4 == z / 64;
  }

  lemma DecodeGroupOfOne(x: byte)
    ensures DecodeGroup([Char(x / 4), Char(x % 4 * 16), '=', '='], true) == Some([x])
  {
    IndexOfChar(x / 4);
    IndexOfChar(x % 4 * 16);
    OneByte(x);
  }

  lemma DecodeGroupOfTwo(x: byte, y: byte)
    ensures DecodeGroup([Char(x / 4), Char(x % 4 * 16 + y / 16), Char(y % 16 * 4), '='], true) == Some([x, y])
  {
    IndexOfChar(x / 4);
    IndexOfChar(x % 4 * 16 + y / 16);
    IndexOfChar(y % 16 * 4);
    TwoBytes(x, y);
  }

  lemma DecodeGroupOfThree(x: byte, y: byte, z: byte, last: bool)
    ensures DecodeGroup([Char(x / 4), Char(x % 4 * 16 + y / 16), Char(y % 16 * 4 + z / 64), Char(z % 64)], last)
         == Some([x, y, z])
  {
    IndexOfChar(x / 4);
    IndexOfChar(x % 4 * 16 + y / 16);
    IndexOfChar(y % 16 * 4 + z / 64);
    IndexOfChar(z % 64);
    TwoBytes(x, y);
    ThreeBytes(x, y, z);
  }

  /** Decoding undoes encoding: the salt and digest bytes stored as base 64
      text are recovered exactly. */
  lemma {:induction false} DecodeEncode(b: seq<byte>)
    ensures Decode(Encode(b)) == Some(b)
    decreases |b|
  {
    if |b| == 1 {
      assert b == [b[0]];
      DecodeEncodeOne(b[0]);
    } else if |b| == 2 {
      assert b == [b[0], b[1]];
      DecodeEncodeTwo(b[0], b[1]);
    } else if |b| >= 3 {
      var tail := b[3..];
      assert b == [b[0], b[1], b[2]] + tail;
      DecodeEncode(tail);
      DecodeEncodeThree(b[0], b[1], b[2], tail);
    }
  }

  lemma DecodeEncodeOne(x: byte)
    ensures Decode(Encode([x])) == Some([x])
  {
    var s := Encode([x]);
    assert s == [Char(x / 4), Char(x % 4 * 16), '=', '='];
    DecodeGroupOfOne(x);
    assert s[..4] == s && s[4..] == [];
    assert Decode(s[4..]) == Some([]);
    assert [x] + [] == [x];
  }

  lemma DecodeEncodeTwo(x: byte, y: byte)
    ensures Decode(Encode([x, y])) == Some([x, y])
  {
    var s := Encode([x, y]);
    assert s == [Char(x / 4), Char(x % 4 * 16 + y / 16), Char(y % 16 * 4), '='];
    DecodeGroupOfTwo(x, y);
    assert s[..4] == s && s[4..] == [];
    assert Decode(s[4..]) == Some([]);
    assert [x, y] + [] == [x, y];
  }

  /** Encoding three bytes in front of more bytes puts one full group in front. */
  lemma EncodeThree(b: seq<byte>)
    requires |b| >= 3
    ensures Encode(b) == [Char(b[0] / 4), Char(b[0] % 4 * 16 + b[1] / 16), Char(b[1] % 16 * 4 + b[2] / 64), Char(b[2] % 64)] + Encode(b[3..])
  {
  }

  lemma DecodeEncodeThree(x: byte, y: byte, z: byte, tail: seq<byte>)
    requires Decode(Encode(tail)) == Some(tail)
    ensures Decode(Encode([x, y, z] + tail)) == Some([x, y, z] + tail)
  {
    var b := [x, y, z] + tail;
    var rest := Encode(tail);
    var group := [Char(x / 4), Char(x % 4 * 16 + y / 16), Char(y % 16 * 4 + z / 64), Char(z % 64)];
    assert b[3..] == tail;
    EncodeThree(b);
    assert Encode(b) == group + rest;
    DecodeGroupOfThree(x, y, z, rest == []);
    DecodeGroups(group, rest, [x, y, z], tail);
  }

  /** Decoding a group followed by more text decodes the group and then the rest. */
  lemma DecodeGroups(group: string, rest: string, head: seq<byte>, tail: seq<byte>)
    requires |group| == 4
    requires DecodeGroup(group, rest == []) == Some(head)
    requires Decode(rest) == Some(tail)
    ensures Decode(group + rest) == Some(head + tail)
  {
    var s := group + rest;
    assert s[..4] == group && s[4..] == rest;
  }

  /** Every three bytes, and a final one or two, take four characters. */
  lemma {:induction false} EncodedLength(b: seq<byte>)
    ensures |Encode(b)| == 4 * ((|b| + 2) / 3)
    decreases |b|
  {
    if |b| >= 3 {
      EncodedLength(b[3..]);
      EncodeThree(b);
      var n := |b| - 3;
      assert (n + 5) / 3 == (n + 2) / 3 + 1;
    }
  }

  /** A 16-byte salt is stored as 24 characters and a 32-byte SHA-256 digest
      as 44 characters. */
  lemma EncodedSizes(salt: seq<byte>, digest: seq<byte>)
    requires |salt| == 16 && |digest| == 32
    ensures |Encode(salt)| == 24 && |Encode(digest)| == 44
  {
    EncodedGroups(salt, 6);
    EncodedGroups(digest, 11);
  }

  /** `groups` started groups of three bytes take `4 * groups` characters. */
  lemma EncodedGroups(b: seq<byte>, groups: nat)
    requires 3 * groups <= |b| + 2 < 3 * groups + 3
    ensures |Encode(b)| == 4 * groups
  {
    EncodedLength(b);
    GroupCount(|b|, groups);
  }

  lemma GroupCount(n: nat, groups: nat)
    requires 3 * groups <= n + 2 < 3 * groups + 3
    ensures (n + 2) / 3 == groups
  {
  }
}

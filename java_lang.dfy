/**
 * The parts of java.lang the library app relies on, stated over Dafny's
 * unbounded integers and `seq<char>` strings: the 32-bit `int`,
 * `String.trim`, `String.toLowerCase` on ASCII letters, `String.contains`,
 * `String.split` for a one-character pattern and for `\s+`,
 * `Integer.parseInt` and the decimal rendering that `%d` produces.
 */
module JavaLang {
  import opened Wrappers

  const MinInt: int := -0x8000_0000
  const MaxInt: int := 0x7FFF_FFFF

  /** Java's `int`, and the value of a non-null `Integer`. */
  type Int32 = x: int | MinInt <= x <= MaxInt

  // ---------------------------------------------------------------------
  // String.trim
  // ---------------------------------------------------------------------

  /** `String.trim` strips every character whose code is at most U+0020. */
  predicate IsTrimmable(c: char) {
    c <= ' '
  }

  function TrimStart(s: string): (r: string)
    ensures |r| <= |s| && r == s[|s| - |r|..]
    ensures r == [] || !IsTrimmable(r[0])
    ensures forall i | 0 <= i < |s| - |r| :: IsTrimmable(s[i])
    decreases |s|
  {
    if s != [] && IsTrimmable(s[0]) then TrimStart(s[1..]) else s
  }

  function TrimEnd(s: string): (r: string)
    ensures |r| <= |s| && r == s[..|r|]
    ensures r == [] || !IsTrimmable(r[|r| - 1])
    ensures forall i | |r| <= i < |s| :: IsTrimmable(s[i])
    decreases |s|
  {
    if s != [] && IsTrimmable(s[|s| - 1]) then TrimEnd(s[..|s| - 1]) else s
  }

  /** `String.trim`: the result neither starts nor ends with a character
      at most U+0020. */
  function Trim(s: string): (r: string)
    ensures |r| <= |s|
    ensures r == [] || (!IsTrimmable(r[0]) && !IsTrimmable(r[|r| - 1]))
  {
    TrimEnd(TrimStart(s))
  }

  /** Trimming gives the empty string exactly when every character of `s`
      is at most U+0020. */
  lemma TrimEmpty(s: string)
    ensures Trim(s) == [] <==> forall i | 0 <= i < |s| :: IsTrimmable(s[i])
  {
    var t := TrimStart(s);
    assert TrimEnd(t) == [] ==> t == [];
  }

  /** Trimming twice is trimming once. */
  lemma TrimIdempotent(s: string)
    ensures Trim(Trim(s)) == Trim(s)
  {
    var t := Trim(s);
    if t != [] {
      assert TrimStart(t) == t;
      assert TrimEnd(t) == t;
    }
  }

  /** Neither end of `s` is a character `trim` removes. */
  predicate TrimmedEnds(s: string) {
    s == [] || (!IsTrimmable(s[0]) && !IsTrimmable(s[|s| - 1]))
  }

  /** Trimming leaves a string alone that neither starts nor ends with a
      character at most U+0020. */
  lemma TrimUntouched(s: string)
    requires s == [] || (!IsTrimmable(s[0]) && !IsTrimmable(s[|s| - 1]))
    ensures Trim(s) == s
  {
    assert TrimStart(s) == s;
    assert TrimEnd(s) == s;
  }

  /** Every character of `s` is one `trim` removes. */
  predicate Blank(s: string) {
    forall i | 0 <= i < |s| :: IsTrimmable(s[i])
  }

  /** Blanks in front are all stripped from the start. */
  lemma {:induction false} TrimStartPadded(p: string, s: string)
    requires Blank(p)
    ensures TrimStart(p + s) == TrimStart(s)
    decreases |p|
  {
    if p != [] {
      assert (p + s)[0] == p[0] && (p + s)[1..] == p[1..] + s;
      assert Blank(p[1..]) by {
        forall i | 0 <= i < |p[1..]| ensures IsTrimmable(p[1..][i]) { assert p[1..][i] == p[i + 1]; }
      }
      TrimStartPadded(p[1..], s);
    } else {
      assert p + s == s;
    }
  }

  /** Blanks behind are all stripped from the end. */
  lemma {:induction false} TrimEndPadded(s: string, q: string)
    requires Blank(q)
    ensures TrimEnd(s + q) == TrimEnd(s)
    decreases |q|
  {
    if q != [] {
      var front := q[..|q| - 1];
      assert (s + q)[|s + q| - 1] == q[|q| - 1] && (s + q)[..|s + q| - 1] == s + front;
      assert Blank(front) by {
        forall i | 0 <= i < |front| ensures IsTrimmable(front[i]) { assert front[i] == q[i]; }
      }
      TrimEndPadded(s, front);
    } else {
      assert s + q == s;
    }
  }

  /** Stripping the start of `s + q` stops inside `s` unless `s` is blank. */
  lemma {:induction false} TrimStartAppend(s: string, q: string)
    ensures TrimStart(s + q) == if TrimStart(s) == [] then TrimStart(q) else TrimStart(s) + q
    decreases |s|
  {
    if s == [] {
      assert s + q == q;
    } else if IsTrimmable(s[0]) {
      assert (s + q)[1..] == s[1..] + q;
      TrimStartAppend(s[1..], q);
    }
  }

  /** Characters at most U+0020 around a text do not change its trimmed
      form. */
  lemma TrimPadded(p: string, s: string, q: string)
    requires Blank(p) && Blank(q)
    ensures Trim(p + s + q) == Trim(s)
  {
    assert p + s + q == p + (s + q);
    TrimStartPadded(p, s + q);
    TrimStartAppend(s, q);
    if TrimStart(s) == [] {
      TrimStartPadded(q, []);
      assert q + [] == q;
    } else {
      TrimEndPadded(TrimStart(s), q);
    }
  }

  // ---------------------------------------------------------------------
  // String.toLowerCase and String.contains
  // ---------------------------------------------------------------------

  function LowerChar(c: char): char {
    if 'A' <= c <= 'Z' then (c as int + 32) as char else c
  }

  /** `String.toLowerCase` on the ASCII letters; other characters are kept. */
  function ToLowerAscii(s: string): (r: string)
    ensures |r| == |s|
    ensures forall i | 0 <= i < |s| :: r[i] == LowerChar(s[i])
  {
    seq(|s|, i requires 0 <= i < |s| => LowerChar(s[i]))
  }

  predicate StartsWith(s: string, prefix: string) {
    |prefix| <= |s| && s[..|prefix|] == prefix
  }

  /** `String.contains`: `t` occurs in `s` at some position. */
  predicate Contains(s: string, t: string)
    decreases |s|
  {
    StartsWith(s, t) || (s != [] && Contains(s[1..], t))
  }

  /** `t` occurs in `s` starting at position `i`. */
  predicate OccursAt(s: string, t: string, i: nat) {
    i + |t| <= |s| && s[i..i + |t|] == t
  }

  /** An occurrence of `t` at any position of `s` makes `Contains` true. */
  lemma {:induction false} ContainsAt(s: string, t: string, i: nat)
    requires i + |t| <= |s|
    ensures s[i..i + |t|] == t ==> Contains(s, t)
    decreases i
  {
    if i > 0 && s[i..i + |t|] == t {
      assert s[1..][i - 1..i - 1 + |t|] == s[i..i + |t|];
      ContainsAt(s[1..], t, i - 1);
    }
  }

  /** `Contains` is true only because of an occurrence: one is returned. */
  lemma {:induction false} ContainsFound(s: string, t: string) returns (i: nat)
    requires Contains(s, t)
    ensures OccursAt(s, t, i)
    decreases |s|
  {
    if StartsWith(s, t) {
      i := 0;
    } else {
      var j := ContainsFound(s[1..], t);
      i := j + 1;
      assert s[1..][j..j + |t|] == s[i..i + |t|];
    }
  }

  /** `Contains` holds exactly when `t` occurs at some position of `s`. */
  lemma ContainsIff(s: string, t: string)
    ensures Contains(s, t) <==> exists i: nat :: OccursAt(s, t, i)
  {
    if Contains(s, t) {
      var i := ContainsFound(s, t);
    }
    if exists i: nat :: OccursAt(s, t, i) {
      var i: nat :| OccursAt(s, t, i);
      ContainsAt(s, t, i);
    }
  }

  // ---------------------------------------------------------------------
  // Cutting a string at separator characters, and String.split
  // ---------------------------------------------------------------------

  predicate NoneIn(s: string, seps: set<char>) {
    forall j | 0 <= j < |s| :: s[j] !in seps
  }

  /** `s` cut at every character of `seps`: `k` separators give `k + 1`
      pieces, empty ones included, and no piece holds a separator. */
  function Pieces(s: string, seps: set<char>): (r: seq<string>)
    ensures |r| >= 1
    ensures forall i | 0 <= i < |r| :: NoneIn(r[i], seps)
    decreases |s|
  {
    if s == [] then [[]]
    else
      var rest := Pieces(s[1..], seps);
      if s[0] in seps then [[]] + rest else [[s[0]] + rest[0]] + rest[1..]
  }

  /** The pieces glued back together with `sep` between neighbours. */
  function Join(ps: seq<string>, sep: char): string
    requires |ps| >= 1
  {
    if |ps| == 1 then ps[0] else ps[0] + [sep] + Join(ps[1..], sep)
  }

  /** Five pieces glued with `sep`. */
  lemma JoinFive(c: seq<string>, sep: char)
    requires |c| == 5
    ensures Join(c, sep) == c[0] + [sep] + (c[1] + [sep] + (c[2] + [sep] + (c[3] + [sep] + c[4])))
  {
    var j3 := c[3] + [sep] + c[4];
    var j2 := c[2] + [sep] + j3;
    var j1 := c[1] + [sep] + j2;
    assert Join(c[3..], sep) == j3 by { assert c[3..][1..] == c[4..]; }
    assert Join(c[2..], sep) == j2 by { assert c[2..][1..] == c[3..]; }
    assert Join(c[1..], sep) == j1 by { assert c[1..][1..] == c[2..]; }
  }

  /** Five texts written with ` | ` between them are the five texts, padded
      with a blank on each side that touches a bar, glued with bars. */
  lemma BarColumns(a: string, b: string, c: string, d: string, e: string)
    ensures a + " | " + b + " | " + c + " | " + d + " | " + e
         == Join([a + " ", " " + b + " ", " " + c + " ", " " + d + " ", " " + e], '|')
  {
    JoinFive([a + " ", " " + b + " ", " " + c + " ", " " + d + " ", " " + e], '|');
    BarStep(a, b + " | " + c + " | " + d + " | " + e);
    BarStep(b, c + " | " + d + " | " + e);
    BarStep(c, d + " | " + e);
    BarStep(d, e);
  }

  lemma BarStep(x: string, r: string)
    ensures x + " " + "|" + (" " + r) == x + " | " + r
  {
  }

  /** Cutting at `sep` and gluing with `sep` gives the string back. */
  lemma {:induction false} JoinPieces(s: string, sep: char)
    ensures Join(Pieces(s, {sep}), sep) == s
    decreases |s|
  {
    if s != [] {
      JoinPieces(s[1..], sep);
      var rest := Pieces(s[1..], {sep});
      if s[0] != sep {
        if |rest| == 1 {
          assert Pieces(s, {sep}) == [[s[0]] + rest[0]];
        } else {
          assert Pieces(s, {sep})[1..] == rest[1..];
          assert Join(rest, sep) == rest[0] + [sep] + Join(rest[1..], sep);
        }
      }
    }
  }

  /** Gluing pieces free of every separator in `seps` with one of them and
      cutting at `seps` gives the pieces back: rendering with a separator is
      undone by cutting. */
  lemma {:induction false} PiecesJoin(ps: seq<string>, sep: char, seps: set<char>)
    requires sep in seps
    requires |ps| >= 1
    requires forall i | 0 <= i < |ps| :: NoneIn(ps[i], seps)
    ensures Pieces(Join(ps, sep), seps) == ps
    decreases |ps|
  {
    if |ps| == 1 {
      PiecesOfPlain(ps[0], seps, []);
      assert ps[0] + [] == ps[0];
    } else {
      PiecesJoin(ps[1..], sep, seps);
      PiecesAfterSeparator(ps[0], sep, seps, Join(ps[1..], sep));
    }
  }

  /** A separator-free head becomes the first piece of whatever follows. */
  lemma {:induction false} PiecesOfPlain(a: string, seps: set<char>, b: string)
    requires NoneIn(a, seps)
    ensures Pieces(a + b, seps) == [a + Pieces(b, seps)[0]] + Pieces(b, seps)[1..]
    decreases |a|
  {
    if a != [] {
      assert (a + b)[1..] == a[1..] + b;
      PiecesOfPlain(a[1..], seps, b);
      assert [a[0]] + (a[1..] + Pieces(b, seps)[0]) == a + Pieces(b, seps)[0];
    } else {
      var p := Pieces(b, seps);
      assert a + b == b;
      assert a + p[0] == p[0];
      assert [p[0]] + p[1..] == p;
    }
  }

  lemma PiecesAfterSeparator(a: string, sep: char, seps: set<char>, b: string)
    requires sep in seps
    requires NoneIn(a, seps)
    ensures Pieces(a + [sep] + b, seps) == [a] + Pieces(b, seps)
  {
    PiecesOfPlain(a, seps, [sep] + b);
    assert a + [sep] + b == a + ([sep] + b);
    assert ([sep] + b)[1..] == b;
    assert a + [] == a;
  }

  /** Drops empty strings from the end, as `String.split` with limit 0 does. */
  function DropTrailingEmpty(ps: seq<string>): (r: seq<string>)
    ensures |r| <= |ps| && r == ps[..|r|]
    ensures r == [] || r[|r| - 1] != []
    ensures forall i | |r| <= i < |ps| :: ps[i] == []
    decreases |ps|
  {
    if ps != [] && ps[|ps| - 1] == [] then DropTrailingEmpty(ps[..|ps| - 1]) else ps
  }

  /** `s.split("\t")`: the fields between tabs, trailing empty fields removed;
      a string without any tab, the empty string included, is one field. */
  function SplitTab(s: string): (r: seq<string>)
    ensures forall i | 0 <= i < |r| :: NoneIn(r[i], {'\t'})
    ensures '\t' !in s ==> r == [s]
    ensures '\t' in s ==> r == DropTrailingEmpty(Pieces(s, {'\t'}))
  {
    if '\t' !in s then [s] else DropTrailingEmpty(Pieces(s, {'\t'}))
  }

  /** The characters the regular expression `\s` matches. */
  const JavaSpaces: set<char> := {' ', '\t', '\n', '\U{0B}', '\U{0C}', '\r'}

  /** The non-empty pieces, in their order. */
  function NonEmpty(ps: seq<string>): (r: seq<string>)
    ensures |r| <= |ps|
    ensures forall i | 0 <= i < |r| :: r[i] != [] && r[i] in ps
    ensures forall i | 0 <= i < |ps| :: ps[i] != [] ==> ps[i] in r
  {
    if ps == [] then []
    else if ps[0] == [] then NonEmpty(ps[1..])
    else [ps[0]] + NonEmpty(ps[1..])
  }

  /** Keeping the non-empty pieces works piece by piece: a single piece is
      kept exactly when it is non-empty, and the kept pieces of two runs are
      those of the first run followed by those of the second. Together these
      fix the order and the multiplicity of what is kept. */
  lemma NonEmptyAppend(a: seq<string>, b: seq<string>)
    ensures NonEmpty([]) == []
    ensures forall p: string :: NonEmpty([p]) == if p == [] then [] else [p]
    ensures NonEmpty(a + b) == NonEmpty(a) + NonEmpty(b)
  {
    forall p: string
      ensures NonEmpty([p]) == if p == [] then [] else [p]
    {
      assert [p][1..] == [];
    }
    NonEmptyConcat(a, b);
  }

  /** The induction on the first run behind `NonEmptyAppend`. */
  lemma {:induction false} NonEmptyConcat(a: seq<string>, b: seq<string>)
    ensures NonEmpty(a + b) == NonEmpty(a) + NonEmpty(b)
    decreases |a|
  {
    if a == [] {
      assert a + b == b;
    } else {
      assert (a + b)[0] == a[0] && (a + b)[1..] == a[1..] + b;
      NonEmptyConcat(a[1..], b);
    }
  }

  /** Pieces that are all non-empty are kept as they are. */
  lemma {:induction false} NonEmptyKeepsAll(ps: seq<string>)
    requires forall i | 0 <= i < |ps| :: ps[i] != []
    ensures NonEmpty(ps) == ps
    decreases |ps|
  {
    if ps != [] {
      NonEmptyKeepsAll(ps[1..]);
    }
  }

  /** `s.split("\\s+")`: a run of white space is one separator, so only a
      leading run leaves an empty first token; trailing empties are removed. */
  function SplitWhitespace(s: string): (r: seq<string>)
    ensures forall i | 0 <= i < |r| :: NoneIn(r[i], JavaSpaces)
    ensures forall i | 1 <= i < |r| :: r[i] != []
  {
    if NoneIn(s, JavaSpaces) then [s]
    else
      var p := Pieces(s, JavaSpaces);
      DropTrailingEmpty([p[0]] + NonEmpty(p[1..]))
  }

  /** Words free of white space, written with one blank between neighbours,
      split at white space into exactly those words, in order. */
  lemma SplitWhitespaceJoin(words: seq<string>)
    requires |words| >= 1
    requires forall i | 0 <= i < |words| :: words[i] != [] && NoneIn(words[i], JavaSpaces)
    ensures SplitWhitespace(Join(words, ' ')) == words
  {
    var s := Join(words, ' ');
    PiecesJoin(words, ' ', JavaSpaces);
    if |words| == 1 {
      assert s == words[0];
    } else {
      NonEmptyKeepsAll(words[1..]);
      assert [words[0]] + words[1..] == words;
      assert !NoneIn(s, JavaSpaces) by {
        JoinHasSeparator(words, ' ');
      }
    }
  }

  /** Gluing two or more pieces puts the separator right after the first. */
  lemma JoinHasSeparator(ps: seq<string>, sep: char)
    requires |ps| >= 2
    ensures |ps[0]| < |Join(ps, sep)| && Join(ps, sep)[|ps[0]|] == sep
  {
  }

  // ---------------------------------------------------------------------
  // Integer.parseInt and the decimal rendering of %d
  // ---------------------------------------------------------------------

  predicate IsDigit(c: char) {
    '0' <= c <= '9'
  }

  predicate AllDigits(s: string) {
    forall i | 0 <= i < |s| :: IsDigit(s[i])
  }

  function DigitValue(c: char): (d: nat)
    requires IsDigit(c)
    ensures d < 10
  {
    c as int - '0' as int
  }

  function DigitChar(d: nat): (c: char)
    requires d < 10
    ensures IsDigit(c) && DigitValue(c) == d
  {
    ('0' as int + d) as char
  }

  /** The number a string of decimal digits denotes (most significant first). */
  function DigitsValue(s: string): nat
    requires AllDigits(s)
    decreases |s|
  {
    if s == [] then 0 else DigitsValue(s[..|s| - 1]) * 10 + DigitValue(s[|s| - 1])
  }

  /** The text after an optional leading `+` or `-`. */
  function Unsigned(s: string): string {
    if s != [] && (s[0] == '-' || s[0] == '+') then s[1..] else s
  }

  /** A decimal numeral: an optional sign, then one or more ASCII digits. */
  predicate Numeral(s: string) {
    Unsigned(s) != [] && AllDigits(Unsigned(s))
  }

  /** The integer a numeral denotes, negated after a minus sign. */
  function NumeralValue(s: string): int
    requires Numeral(s)
  {
    if s[0] == '-' then -(DigitsValue(Unsigned(s)) as int) else DigitsValue(Unsigned(s))
  }

  /** A leading zero does not change the value of a digit string. */
  lemma {:induction false} DigitsValueLeadingZero(s: string)
    requires AllDigits(s)
    ensures AllDigits("0" + s) && DigitsValue("0" + s) == DigitsValue(s)
    decreases |s|
  {
    if s != [] {
      var init := s[..|s| - 1];
      DigitsValueLeadingZero(init);
      assert ("0" + s)[..|"0" + s| - 1] == "0" + init;
    }
  }

  /** A leading `+` is ignored: `Integer.parseInt("+" + s)` is
      `Integer.parseInt(s)` for a non-empty digit string `s`. */
  lemma ParseIntPlus(s: string)
    requires s != [] && AllDigits(s)
    ensures ParseInt("+" + s) == ParseInt(s)
  {
    assert ("+" + s)[1..] == s;
  }

  /** A leading zero is ignored: `Integer.parseInt("0" + s)` is
      `Integer.parseInt(s)` for a non-empty digit string `s`. */
  lemma ParseIntLeadingZero(s: string)
    requires s != [] && AllDigits(s)
    ensures ParseInt("0" + s) == ParseInt(s)
  {
    DigitsValueLeadingZero(s);
  }

  /** `Integer.parseInt(s)`: an optional `+` or `-` followed by at least one
      decimal digit, denoting a value in the 32-bit range; `None` stands for
      the `NumberFormatException` Java throws otherwise. */
  function ParseInt(s: string): (r: Option<Int32>)
    ensures r.Some? <==> Numeral(s) && MinInt <= NumeralValue(s) <= MaxInt
    ensures r.Some? ==> r.value == NumeralValue(s)
  {
    if s == [] then None
    else if s[0] == '-' || s[0] == '+' then
      var digits := s[1..];
      if digits == [] || !AllDigits(digits) then None
      else
        var v: int := if s[0] == '-' then -(DigitsValue(digits) as int) else DigitsValue(digits);
        if MinInt <= v <= MaxInt then Some(v) else None
    else if !AllDigits(s) then None
    else if DigitsValue(s) <= MaxInt then Some(DigitsValue(s))
    else None
  }

  /** The decimal digits of `n`, without leading zeros. */
  function NatToString(n: nat): (s: string)
    ensures s != [] && AllDigits(s)
    ensures s[0] == '0' ==> n == 0
    decreases n
  {
    if n < 10 then [DigitChar(n)] else NatToString(n / 10) + [DigitChar(n % 10)]
  }

  /** How `%d` (and `Integer.toString`) renders an integer. */
  function IntToString(n: int): (s: string)
    ensures s != [] && (s[0] == '-' <==> n < 0)
  {
    if n < 0 then "-" + NatToString(-n) else NatToString(n)
  }

  /** A rendered integer is a numeral: a minus sign exactly for a negative
      value, then digits with no leading zero unless the value is 0. */
  lemma IntToStringNumeral(n: int)
    ensures var s := IntToString(n);
      Numeral(s) && (Unsigned(s)[0] == '0' ==> n == 0)
      && Unsigned(s) == NatToString(if n < 0 then -n else n)
  {
  }

  lemma {:induction false} NatToStringValue(n: nat)
    ensures DigitsValue(NatToString(n)) == n
    decreases n
  {
    if n >= 10 {
      NatToStringValue(n / 10);
      var s := NatToString(n);
      assert s[..|s| - 1] == NatToString(n / 10);
    }
  }

  /** `Integer.parseInt` reads back what `%d` writes, for every 32-bit value. */
  lemma ParseIntOfIntToString(n: Int32)
    ensures ParseInt(IntToString(n)) == Some(n)
  {
    var s := IntToString(n);
    IntToStringNumeral(n);
    if n < 0 {
      NatToStringValue(-(n as int));
      assert Unsigned(s) == NatToString(-(n as int));
    } else {
      NatToStringValue(n);
      assert Unsigned(s) == NatToString(n);
    }
    assert NumeralValue(s) == n;
  }

  /** A rendered 32-bit value is read back even after trimming. */
  lemma ParseIntOfTrimmedIntToString(n: Int32)
    ensures ParseInt(Trim(IntToString(n))) == Some(n)
  {
    IntToStringEnds(n);
    TrimUntouched(IntToString(n));
    ParseIntOfIntToString(n);
  }

  /** No rendered integer contains a character from `cs` unless it is a
      digit or the minus sign. */
  lemma IntToStringChars(n: int, cs: set<char>)
    requires forall c | c in cs :: !IsDigit(c) && c != '-'
    ensures NoneIn(IntToString(n), cs)
  {
  }

  /** A rendered integer starts with a character `trim` keeps, ends with a
      digit and holds no tab. */
  lemma IntToStringEnds(n: int)
    ensures var s := IntToString(n);
      !IsTrimmable(s[0]) && IsDigit(s[|s| - 1]) && '\t' !in s
  {
    IntToStringChars(n, {'\t'});
  }

  // ---------------------------------------------------------------------
  // String.format of nullable values
  // ---------------------------------------------------------------------

  /** How `%d` writes a nullable `Integer`: its digits, or `null`. */
  function ShowInt(o: Option<Int32>): (s: string)
    ensures NoneIn(s, {'|'})
    ensures o.Some? ==> ParseInt(s) == o
  {
    match o
    case None => "null"
    case Some(n) => IntToStringChars(n, {'|'}); ParseIntOfIntToString(n); IntToString(n)
  }

  /** How `%s` writes a nullable `String`: the text itself, or `null`. */
  function ShowStr(o: Option<string>): (s: string)
    ensures s == "null" <==> o == None || o == Some("null")
  {
    match o
    case None => "null"
    case Some(s) => s
  }

  /** `%s` tells two nullable strings apart except a null one from the
      text `null`. */
  lemma ShowStrDistinguishes(o: Option<string>, p: Option<string>)
    requires ShowStr(o) == ShowStr(p)
    ensures o == p || (o == None && p == Some("null")) || (o == Some("null") && p == None)
  {
  }
}

/**
 Text as the program handles it: characters, ASCII case, splitting and joining, decimal numbers,
 and the bytes a string is ordered and measured by.
 */
module Text {

  // ---- characters ----

  predicate IsDigit(c: char) { '0' <= c <= '9' }

  predicate IsLetter(c: char) { 'a' <= c <= 'z' || 'A' <= c <= 'Z' }

  predicate IsHexDigit(c: char) { IsDigit(c) || 'a' <= c <= 'f' || 'A' <= c <= 'F' }

  predicate IsAlphanumeric(c: char) { IsDigit(c) || IsLetter(c) }

  /** A character of a property name, the `$` of the Prism Central's own annotations included. */
  predicate IsIdentifierChar(c: char) { IsAlphanumeric(c) || c == '_' || c == '$' }

  function Lower(c: char): char {
    if 'A' <= c <= 'Z' then (c as int + 32) as char else c
  }

  function LowerCase(s: string): (r: string)
    ensures |r| == |s|
  {
    seq(|s|, i requires 0 <= i < |s| => Lower(s[i]))
  }

  predicate All(s: string, p: char -> bool) {
    forall i :: 0 <= i < |s| ==> p(s[i])
  }

  predicate StartsWith(s: string, prefix: string) { prefix <= s }

  predicate EndsWith(s: string, suffix: string) {
    |suffix| <= |s| && s[|s| - |suffix|..] == suffix
  }

  /** Whether `part` occurs in `s` at all. */
  predicate Contains(s: string, part: string) {
    StartsWith(s, part) || (s != "" && Contains(s[1..], part))
  }

  /** Unicode's white space, which `trim` takes off both ends. */
  predicate IsWhite(c: char) {
    var n := c as int;
    9 <= n <= 13 || n == 0x20 || n == 0x85 || n == 0xA0 || n == 0x1680 || 0x2000 <= n <= 0x200A ||
    n == 0x2028 || n == 0x2029 || n == 0x202F || n == 0x205F || n == 0x3000
  }

  predicate IsTrimmed(s: string) {
    s == "" || (!IsWhite(s[0]) && !IsWhite(s[|s| - 1]))
  }

  function Trim(s: string): (r: string)
    ensures IsTrimmed(r)
    ensures IsTrimmed(s) ==> r == s
    decreases |s|
  {
    if IsTrimmed(s) then s
    else if IsWhite(s[0]) then Trim(s[1..])
    else Trim(s[..|s| - 1])
  }

  // ---- splitting and joining ----

  /** The pieces of `s` between the occurrences of `c`: one more piece than there are `c`s. */
  function Split(s: string, c: char): (parts: seq<string>)
    ensures parts != []
    ensures forall i :: 0 <= i < |parts| ==> c !in parts[i]
  {
    if s == "" then [""]
    else if s[0] == c then [""] + Split(s[1..], c)
    else
      var rest := Split(s[1..], c);
      [[s[0]] + rest[0]] + rest[1..]
  }

  function Join(parts: seq<string>, c: char): string
    requires parts != []
  {
    if |parts| == 1 then parts[0] else parts[0] + [c] + Join(parts[1..], c)
  }

  lemma {:induction false} JoinSplit(s: string, c: char)
    ensures Join(Split(s, c), c) == s
  {
    if s != "" {
      JoinSplit(s[1..], c);
      var rest := Split(s[1..], c);
      if s[0] != c {
        assert Split(s, c)[1..] == rest[1..];
        assert Join(Split(s, c), c) == [s[0]] + Join(rest, c);
      } else {
        assert Split(s, c)[1..] == rest;
      }
    }
  }

  lemma {:induction false} SplitPiece(p: string, s: string, c: char)
    requires c !in p
    ensures Split(p, c) == [p]
    ensures Split(p + [c] + s, c) == [p] + Split(s, c)
  {
    if p == "" {
      assert ([] + [c] + s)[1..] == s;
    } else {
      SplitPiece(p[1..], s, c);
      assert (p + [c] + s)[1..] == p[1..] + [c] + s;
      assert [p[0]] + p[1..] == p;
    }
  }

  lemma {:induction false} SplitJoin(parts: seq<string>, c: char)
    requires parts != [] && forall i :: 0 <= i < |parts| ==> c !in parts[i]
    ensures Split(Join(parts, c), c) == parts
  {
    if |parts| == 1 {
      SplitPiece(parts[0], "", c);
    } else {
      SplitJoin(parts[1..], c);
      SplitPiece(parts[0], Join(parts[1..], c), c);
    }
  }

  // ---- decimal numbers ----

  function Digit(n: nat): char
    requires n < 10
  {
    ('0' as int + n) as char
  }

  function NatText(n: nat): (s: string)
    ensures s != "" && All(s, IsDigit)
  {
    if n < 10 then [Digit(n)] else NatText(n / 10) + [Digit(n % 10)]
  }

  function IntText(n: int): string {
    if n < 0 then "-" + NatText(-n) else NatText(n)
  }

  function NatOf(s: string): nat
    requires All(s, IsDigit)
  {
    if s == "" then 0 else NatOf(s[..|s| - 1]) * 10 + (s[|s| - 1] as int - '0' as int)
  }

  lemma {:induction false} NatOfNatText(n: nat)
    ensures NatOf(NatText(n)) == n
  {
    if n >= 10 {
      NatOfNatText(n / 10);
      assert NatText(n)[..|NatText(n)| - 1] == NatText(n / 10);
    }
  }

  /** A number at least `w` digits wide, zeros in front: the `{:04}` of the format strings. */
  function Padded(n: nat, w: nat): string {
    var s := NatText(n);
    if |s| >= w then s else seq(w - |s|, _ => '0') + s
  }

  /** The last `w` digits of a number. */
  function LastDigits(n: nat, w: nat): (s: string)
    ensures |s| == w && All(s, IsDigit)
  {
    if w == 0 then "" else LastDigits(n / 10, w - 1) + [Digit(n % 10)]
  }

  lemma {:induction false} LastDigitsOfZero(w: nat)
    ensures LastDigits(0, w) == seq(w, _ => '0')
  {
    if w > 0 {
      LastDigitsOfZero(w - 1);
    }
  }

  function PowerOfTen(w: nat): nat {
    if w == 0 then 1 else 10 * PowerOfTen(w - 1)
  }

  lemma {:induction false} PaddedIsFixedWidth(n: nat, w: nat)
    requires w > 0 && n < PowerOfTen(w)
    ensures Padded(n, w) == LastDigits(n, w)
  {
    if n < 10 {
      LastDigitsOfZero(w - 1);
      assert LastDigits(n, w) == LastDigits(0, w - 1) + [Digit(n)];
      assert Padded(n, w) == seq(w - 1, _ => '0') + [Digit(n)];
    } else {
      PaddedIsFixedWidth(n / 10, w - 1);
    }
  }

  lemma {:induction false} LastDigitsValue(n: nat, w: nat)
    requires n < PowerOfTen(w)
    ensures NatOf(LastDigits(n, w)) == n
  {
    if w > 0 {
      LastDigitsValue(n / 10, w - 1);
      assert LastDigits(n, w)[..w - 1] == LastDigits(n / 10, w - 1);
    }
  }

  // ---- the texts that read as a floating-point number ----

  /** How many digits `s` starts with. */
  function DigitsAhead(s: string): (n: nat)
    ensures n <= |s| && All(s[..n], IsDigit)
    ensures n < |s| ==> !IsDigit(s[n])
  {
    if s == "" || !IsDigit(s[0]) then 0 else 1 + DigitsAhead(s[1..])
  }

  predicate IsSign(c: char) { c == '+' || c == '-' }

  function Unsigned(s: string): string {
    if s != "" && IsSign(s[0]) then s[1..] else s
  }

  predicate IsExponent(s: string) {
    s != "" && Lower(s[0]) == 'e' && Unsigned(s[1..]) != "" && All(Unsigned(s[1..]), IsDigit)
  }

  /** `Digit* ('.' Digit*)? Exp?` with a digit somewhere before the exponent. */
  predicate IsDecimal(s: string) {
    var whole := DigitsAhead(s);
    var point := whole < |s| && s[whole] == '.';
    var fraction := if point then DigitsAhead(s[whole + 1..]) else 0;
    var rest := if point then s[whole + 1 + fraction..] else s[whole..];
    whole + fraction > 0 && (rest == "" || IsExponent(rest))
  }

  /** Exactly the texts Rust's `str::parse::<f64>` accepts. */
  predicate IsFloat(s: string) {
    var t := Unsigned(s);
    LowerCase(t) in ["inf", "infinity", "nan"] || IsDecimal(t)
  }

  /** A character a float's text can hold: none of them ends a word or an instant. */
  predicate IsFloatChar(c: char) {
    IsDigit(c) || c == '+' || c == '-' || c == '.' || Lower(c) in "einftya"
  }

  lemma FloatChars(s: string)
    requires IsFloat(s)
    ensures s != "" && All(s, IsFloatChar)
  {
    var t := Unsigned(s);
    assert s == t || s == [s[0]] + t;
    if IsDecimal(t) {
      DecimalChars(t);
    } else {
      assert |LowerCase(t)| == |t|;
      forall i | 0 <= i < |t| ensures IsFloatChar(t[i]) {
        assert LowerCase(t)[i] == Lower(t[i]);
      }
    }
  }

  lemma AllOfConcat(a: string, b: string, p: char -> bool)
    requires All(a, p) && All(b, p)
    ensures All(a + b, p)
  {}

  lemma DigitsAreFloatChars(s: string, n: nat)
    requires n <= |s| && All(s[..n], IsDigit) && All(s[n..], IsFloatChar)
    ensures All(s, IsFloatChar)
  {
    assert s == s[..n] + s[n..];
    AllOfConcat(s[..n], s[n..], IsFloatChar);
  }

  lemma DecimalChars(s: string)
    requires IsDecimal(s)
    ensures s != "" && All(s, IsFloatChar)
  {
    hide IsExponent;
    var whole := DigitsAhead(s);
    if whole < |s| && s[whole] == '.' {
      var after := s[whole + 1..];
      var fraction := DigitsAhead(after);
      assert s[whole + 1 + fraction..] == after[fraction..];
      ExponentChars(after[fraction..]);
      DigitsAreFloatChars(after, fraction);
      assert s[whole..] == ['.'] + after;
    } else {
      ExponentChars(s[whole..]);
    }
    DigitsAreFloatChars(s, whole);
  }

  lemma ExponentChars(s: string)
    requires s == "" || IsExponent(s)
    ensures All(s, IsFloatChar)
  {
    if s != "" {
      var t := s[1..];
      assert s == [s[0]] + t;
      assert t == Unsigned(t) || t == [t[0]] + Unsigned(t);
    }
  }

  // ---- bytes ----

  function CharBytes(c: char): (b: seq<int>)
    ensures 1 <= |b| <= 4
    ensures c as int < 128 ==> b == [c as int]
  {
    var n := c as int;
    if n < 0x80 then [n]
    else if n < 0x800 then [0xC0 + n / 64, 0x80 + n % 64]
    else if n < 0x10000 then [0xE0 + n / 4096, 0x80 + n / 64 % 64, 0x80 + n % 64]
    else [0xF0 + n / 262144, 0x80 + n / 4096 % 64, 0x80 + n / 64 % 64, 0x80 + n % 64]
  }

  /** The UTF-8 bytes of a string: what `len` counts and `cmp` compares. */
  function Utf8(s: string): seq<int> {
    if s == "" then [] else CharBytes(s[0]) + Utf8(s[1..])
  }

  predicate IsAscii(c: char) { c as int < 128 }

  lemma {:induction false} Utf8OfAscii(s: string)
    requires All(s, IsAscii)
    ensures |Utf8(s)| == |s|
    ensures forall i :: 0 <= i < |s| ==> Utf8(s)[i] == s[i] as int
  {
    if s != "" {
      Utf8OfAscii(s[1..]);
    }
  }

  lemma {:induction false} Utf8Concat(a: string, b: string)
    ensures Utf8(a + b) == Utf8(a) + Utf8(b)
  {
    if a == "" {
      assert a + b == b;
    } else {
      assert (a + b)[1..] == a[1..] + b;
      Utf8Concat(a[1..], b);
    }
  }

  /** The first byte of an encoding says how long it is ... */
  lemma FirstByteGivesLength(a: char, b: char)
    requires CharBytes(a)[0] == CharBytes(b)[0]
    ensures |CharBytes(a)| == |CharBytes(b)|
  {}

  lemma SixBitGroups(n: nat)
    ensures n == 64 * (n / 64) + n % 64
    ensures n / 64 == 64 * (n / 4096) + n / 64 % 64
    ensures n / 4096 == 64 * (n / 262144) + n / 4096 % 64
  {
    assert n / 64 / 64 == n / 4096;
    assert n / 4096 / 64 == n / 262144;
  }

  /** ... and the bytes say which character. */
  lemma BytesGiveChar(a: char, b: char)
    requires CharBytes(a) == CharBytes(b)
    ensures a == b
  {
    var n, m := a as int, b as int;
    SixBitGroups(n);
    SixBitGroups(m);
    var s, t := CharBytes(a), CharBytes(b);
    assert s[0] == t[0];
    if |s| == 1 {
      assert n == m;
    } else if |s| == 2 {
      assert s[1] == t[1];
      assert n == m;
    } else if |s| == 3 {
      assert s[1] == t[1] && s[2] == t[2];
      assert n == m;
    } else {
      assert s[1] == t[1] && s[2] == t[2] && s[3] == t[3];
      assert n == m;
    }
  }

  lemma CharBytesDecode(a: char, b: char, x: seq<int>, y: seq<int>)
    requires CharBytes(a) + x == CharBytes(b) + y
    ensures a == b && x == y
  {
    hide CharBytes;
    var s, t := CharBytes(a) + x, CharBytes(b) + y;
    assert s[0] == CharBytes(a)[0] && t[0] == CharBytes(b)[0];
    FirstByteGivesLength(a, b);
    assert CharBytes(a) == s[..|CharBytes(a)|] == t[..|CharBytes(b)|] == CharBytes(b);
    assert x == s[|CharBytes(a)|..] && y == t[|CharBytes(b)|..];
    BytesGiveChar(a, b);
  }

  lemma {:induction false} Utf8Injective(s: string, t: string)
    requires Utf8(s) == Utf8(t)
    ensures s == t
  {
    if s != "" && t != "" {
      CharBytesDecode(s[0], t[0], Utf8(s[1..]), Utf8(t[1..]));
      Utf8Injective(s[1..], t[1..]);
      assert s == [s[0]] + s[1..] && t == [t[0]] + t[1..];
    }
  }

  datatype Ordering = Less | Equal | Greater

  function CompareInts(a: int, b: int): Ordering {
    if a < b then Less else if a == b then Equal else Greater
  }

  /** Lexicographic order, a proper prefix first. */
  function Compare(a: seq<int>, b: seq<int>): Ordering {
    if a == [] then if b == [] then Equal else Less
    else if b == [] then Greater
    else if a[0] != b[0] then CompareInts(a[0], b[0])
    else Compare(a[1..], b[1..])
  }

  function CompareText(a: string, b: string): Ordering {
    Compare(Utf8(a), Utf8(b))
  }

  lemma {:induction false} CompareEqual(a: seq<int>, b: seq<int>)
    ensures Compare(a, b) == Equal <==> a == b
  {
    if a != [] && b != [] && a[0] == b[0] {
      CompareEqual(a[1..], b[1..]);
      assert a == [a[0]] + a[1..] && b == [b[0]] + b[1..];
    }
  }

  lemma {:induction false} CompareBlocks(a: seq<int>, b: seq<int>, x: seq<int>, y: seq<int>)
    requires |a| == |b|
    ensures Compare(a + x, b + y) == if a == b then Compare(x, y) else Compare(a, b)
  {
    if a == [] {
      assert a + x == x && b + y == y;
    } else {
      assert (a + x)[1..] == a[1..] + x && (b + y)[1..] == b[1..] + y;
      CompareBlocks(a[1..], b[1..], x, y);
      assert a == [a[0]] + a[1..] && b == [b[0]] + b[1..];
    }
  }

  lemma CompareTextBlocks(a: string, b: string, x: string, y: string)
    requires |a| == |b| && All(a, IsAscii) && All(b, IsAscii)
    ensures CompareText(a + x, b + y) == if a == b then CompareText(x, y) else CompareText(a, b)
    ensures CompareText(a, b) == Equal <==> a == b
  {
    Utf8OfAscii(a);
    Utf8OfAscii(b);
    Utf8Concat(a, x);
    Utf8Concat(b, y);
    CompareBlocks(Utf8(a), Utf8(b), Utf8(x), Utf8(y));
    CompareEqual(Utf8(a), Utf8(b));
    if Utf8(a) == Utf8(b) {
      forall i | 0 <= i < |a| ensures a[i] == b[i] {
        assert Utf8(a)[i] == Utf8(b)[i];
      }
    }
  }

  /** Order by code points, a proper prefix first. */
  function ByCodePoints(s: string, t: string): Ordering {
    if s == "" then if t == "" then Equal else Less
    else if t == "" then Greater
    else if s[0] != t[0] then CompareInts(s[0] as int, t[0] as int)
    else ByCodePoints(s[1..], t[1..])
  }

  /** A shorter encoding is of a smaller character, and starts on a smaller byte. */
  lemma ShorterIsSmaller(a: char, b: char)
    requires |CharBytes(a)| < |CharBytes(b)|
    ensures a < b && CharBytes(a)[0] < CharBytes(b)[0]
  {}

  /** Encodings of one length order as their characters. */
  lemma SameLengthOrders(a: char, b: char)
    requires |CharBytes(a)| == |CharBytes(b)|
    ensures Compare(CharBytes(a), CharBytes(b)) == CompareInts(a as int, b as int)
  {
    var n, m := a as int, b as int;
    SixBitGroups(n);
    SixBitGroups(m);
    var s, t := CharBytes(a), CharBytes(b);
    if |s| == 1 {
      CompareHeads(s, t);
    } else if |s| == 2 {
      CompareHeads(s, t);
      CompareHeads(s[1..], t[1..]);
    } else if |s| == 3 {
      CompareHeads(s, t);
      CompareHeads(s[1..], t[1..]);
      CompareHeads(s[2..], t[2..]);
      assert s[1..][1..] == s[2..] && t[1..][1..] == t[2..];
    } else {
      CompareHeads(s, t);
      CompareHeads(s[1..], t[1..]);
      CompareHeads(s[2..], t[2..]);
      CompareHeads(s[3..], t[3..]);
      assert s[1..][1..] == s[2..] && t[1..][1..] == t[2..];
      assert s[2..][1..] == s[3..] && t[2..][1..] == t[3..];
    }
  }

  lemma CompareHeads(a: seq<int>, b: seq<int>)
    requires a != [] && b != []
    ensures Compare(a, b) == if a[0] != b[0] then CompareInts(a[0], b[0]) else Compare(a[1..], b[1..])
  {}

  /** UTF-8 keeps the order: bytewise is by code points. */
  lemma {:induction false} BytesOrderAsCodePoints(s: string, t: string)
    ensures CompareText(s, t) == ByCodePoints(s, t)
  {
    if s != "" && t != "" {
      var a, b, x, y := CharBytes(s[0]), CharBytes(t[0]), Utf8(s[1..]), Utf8(t[1..]);
      BytesOrderAsCodePoints(s[1..], t[1..]);
      if |a| == |b| {
        SameLengthOrders(s[0], t[0]);
        CompareBlocks(a, b, x, y);
        CompareEqual(a, b);
      } else {
        if |a| < |b| {
          ShorterIsSmaller(s[0], t[0]);
        } else {
          ShorterIsSmaller(t[0], s[0]);
        }
        CompareHeads(a + x, b + y);
      }
      hide CharBytes, Compare;
    }
  }

  /** Fixed-width decimals order as their numbers do. */
  lemma {:induction false} CompareLastDigits(n: nat, m: nat, w: nat)
    requires n < PowerOfTen(w) && m < PowerOfTen(w)
    ensures CompareText(LastDigits(n, w), LastDigits(m, w)) == CompareInts(n, m)
  {
    if w == 0 {
      assert Utf8("") == [];
    } else {
      var a, b := LastDigits(n / 10, w - 1), LastDigits(m / 10, w - 1);
      CompareLastDigits(n / 10, m / 10, w - 1);
      CompareTextBlocks(a, b, [Digit(n % 10)], [Digit(m % 10)]);
      LastDigitsValue(n / 10, w - 1);
      LastDigitsValue(m / 10, w - 1);
      CompareDigits(n % 10, m % 10);
    }
  }

  lemma CompareDigits(n: nat, m: nat)
    requires n < 10 && m < 10
    ensures CompareText([Digit(n)], [Digit(m)]) == CompareInts(n, m)
  {
    assert [Digit(n)][1..] == "" && [Digit(m)][1..] == "";
    assert Utf8([Digit(n)]) == [Digit(n) as int] && Utf8([Digit(m)]) == [Digit(m) as int];
    CompareEqual([Digit(n) as int][1..], [Digit(m) as int][1..]);
  }

  /** A padded number and its separator: the block every time stamp is built from. */
  function Field(n: nat, w: nat, separator: char): string {
    Padded(n, w) + [separator]
  }

  lemma CompareFields(n: nat, m: nat, w: nat, separator: char, x: string, y: string)
    requires w > 0 && n < PowerOfTen(w) && m < PowerOfTen(w) && IsAscii(separator)
    ensures CompareText(Field(n, w, separator) + x, Field(m, w, separator) + y)
         == if n == m then CompareText(x, y) else CompareInts(n, m)
  {
    var a, b := LastDigits(n, w), LastDigits(m, w);
    PaddedIsFixedWidth(n, w);
    PaddedIsFixedWidth(m, w);
    CompareLastDigits(n, m, w);
    CompareTextBlocks(a, b, [separator] + x, [separator] + y);
    CompareTextBlocks([separator], [separator], x, y);
    assert a + [separator] + x == a + ([separator] + x);
    assert b + [separator] + y == b + ([separator] + y);
  }
}

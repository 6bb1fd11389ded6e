/** From the text of a constant expression to its tokens. What letters are is a parameter, since the source
    asks Unicode; on ASCII it is the usual answer. */
module Tokenizer {
  import opened Bytes
  import opened Arithmetic128
  import opened Evaluator
  import opened EvaluatorTheorems

  type Text = seq<char>

  type Letters = char -> bool

  /** The characters with the Unicode property White_Space. */
  predicate IsSpace(c: char) {
    var n := c as int;
    || 0x09 <= n <= 0x0D || n == 0x20 || n == 0x85 || n == 0xA0 || n == 0x1680 || 0x2000 <= n <= 0x200A
    || n == 0x2028 || n == 0x2029 || n == 0x202F || n == 0x205F || n == 0x3000
  }

  predicate IsAsciiLetter(c: char) {
    'a' <= c <= 'z' || 'A' <= c <= 'Z'
  }

  predicate IsIdentChar(c: char) {
    IsAsciiLetter(c) || '0' <= c <= '9' || c == '_'
  }

  predicate IsAscii(c: char) {
    c as int < 128
  }

  ghost predicate Sensible(letters: Letters) {
    forall c: char :: IsAscii(c) ==> (letters(c) <==> IsAsciiLetter(c))
  }

  /** The character classes by number. */
  lemma ClassesAre(c: char)
    ensures IsSpace(c) <==> c as int in {9, 10, 11, 12, 13, 32, 133, 160, 5760, 8192, 8193, 8194, 8195, 8196, 8197, 8198, 8199, 8200, 8201, 8202,
                                         8232, 8233, 8239, 8287, 12288}
    ensures IsIdentChar(c) <==> 48 <= c as int <= 57 || 65 <= c as int <= 90 || c as int == 95 || 97 <= c as int <= 122
    ensures IsAsciiLetter(c) <==> 65 <= c as int <= 90 || 97 <= c as int <= 122
    ensures IsAscii(c) <==> c as int <= 127
  {
  }

  // ----- number literals

  function DigitOf(c: char): (d: nat) {
    if '0' <= c <= '9' then c as int - '0' as int
    else if 'a' <= c <= 'z' then 10 + c as int - 'a' as int
    else if 'A' <= c <= 'Z' then 10 + c as int - 'A' as int
    else 36
  }

  predicate IsDigit(c: char, radix: nat) {
    DigitOf(c) < radix
  }

  function DigitsEnd(c: Text, j: nat, radix: nat): (end: nat)
    requires j <= |c|
    ensures j <= end <= |c| && forall k :: j <= k < end ==> c[k] == '_' || IsDigit(c[k], radix)
    decreases |c| - j
  {
    if j < |c| && (c[j] == '_' || IsDigit(c[j], radix)) then DigitsEnd(c, j + 1, radix) else j
  }

  function WithoutUnderscores(s: Text): (r: Text) {
    if s == [] then [] else (if s[|s| - 1] == '_' then WithoutUnderscores(s[..|s| - 1]) else WithoutUnderscores(s[..|s| - 1]) + [s[|s| - 1]])
  }

  function NameEnd(c: Text, j: nat, colons: bool): (end: nat)
    requires j <= |c|
    ensures j <= end <= |c| && forall k :: j <= k < end ==> IsIdentChar(c[k]) || (colons && c[k] == ':')
    decreases |c| - j
  {
    if j < |c| && (IsIdentChar(c[j]) || (colons && c[j] == ':')) then NameEnd(c, j + 1, colons) else j
  }

  function ValueOf(s: Text, radix: nat): (v: nat) {
    if s == [] then 0 else ValueOf(s[..|s| - 1], radix) * radix + DigitOf(s[|s| - 1])
  }

  /** The number the digits denote, if there are any and it fits 128 bits. */
  function FromDigits(s: Text, radix: nat): (v: Option<int>) {
    if s == [] || LIMIT <= ValueOf(s, radix) then None else Some(ValueOf(s, radix))
  }

  function SuffixEnd(c: Text, j: nat): (end: nat)
    requires j <= |c|
    ensures j <= end <= |c| && forall k :: j <= k < end ==> IsIdentChar(c[k])
  {
    if j < |c| && (c[j] == 'u' || c[j] == 'i') then NameEnd(c, j, false) else j
  }

  function RadixAt(c: Text, i: nat): (r: (nat, nat))
    requires i < |c|
    ensures i <= r.1 <= |c| && r.0 <= 16 && (r.1 == i ==> r.0 == 10)
    ensures forall k :: i <= k < r.1 ==> IsIdentChar(c[k])
  {
    if c[i] == '0' && i + 1 < |c| && c[i + 1] == 'x' then (16, i + 2)
    else if c[i] == '0' && i + 1 < |c| && c[i + 1] == 'b' then (2, i + 2)
    else if c[i] == '0' && i + 1 < |c| && c[i + 1] == 'o' then (8, i + 2)
    else (10, i)
  }

  // ----- one token

  datatype Rejection = BadLiteral(at: nat) | Unsupported(ch: char)

  /** What stands at a position: a token or white space and where it ends, or something that is neither. */
  datatype Lexed = Reads(tok: Option<Tok>, end: nat) | Refuses(why: Rejection)

  function NumberAt(c: Text, i: nat): (r: Lexed)
    requires i < |c|
    ensures r.Reads? ==> i <= r.end <= |c| && forall k :: i <= k < r.end ==> IsAscii(c[k])
  {
    var (radix, start) := RadixAt(c, i);
    var j := DigitsEnd(c, start, radix);
    var end := SuffixEnd(c, j);
    var v := FromDigits(WithoutUnderscores(c[start..j]), radix);
    if v.None? then Refuses(BadLiteral(i)) else Reads(Some(Num(v.value)), end)
  }

  function LexAt(letters: Letters, c: Text, i: nat): (r: Lexed)
    requires i < |c|
    ensures r.Reads? ==> i <= r.end <= |c|
  {
    if IsSpace(c[i]) then Reads(None, i + 1)
    else if '0' <= c[i] <= '9' then NumberAt(c, i)
    else if letters(c[i]) || c[i] == '_' then var j := NameEnd(c, i, true); Reads(Some(Ident(c[i..j])), j)
    else if c[i] == '<' && i + 1 < |c| && c[i + 1] == '<' then Reads(Some(ShlTok), i + 2)
    else if c[i] == '>' && i + 1 < |c| && c[i + 1] == '>' then Reads(Some(ShrTok), i + 2)
    else if c[i] in "+-*/()|&" then Reads(Some(Sym(c[i])), i + 1)
    else Refuses(Unsupported(c[i]))
  }

  /** A letter that cannot stand in an identifier: reading it consumes nothing. */
  predicate Stalls(letters: Letters, ch: char) {
    !IsSpace(ch) && letters(ch) && !IsAscii(ch)
  }

  /** The tokens of a text, or why there are none. Where reading consumes nothing the source repeats the
      same step for ever; that outcome is `Endless`. */
  datatype Tokenized = Tokens(ts: seq<Tok>) | Rejected(why: Rejection) | Endless(at: nat)

  function TokenizeFrom(letters: Letters, c: Text, i: nat): (r: Tokenized)
    requires i <= |c|
    decreases |c| - i
  {
    if i == |c| then Tokens([])
    else
      var one := LexAt(letters, c, i);
      if one.Refuses? then Rejected(one.why)
      else if one.end == i then Endless(i)
      else
        var rest := TokenizeFrom(letters, c, one.end);
        if rest.Tokens? && one.tok.Some? then Tokens([one.tok.value] + rest.ts) else rest
  }

  method Tokenize(c: Text, letters: Letters) returns (r: Tokenized)
    ensures r == TokenizeFrom(letters, c, 0)
  {
    hide LexAt;
    var t: seq<Tok> := [];
    var i := 0;
    while i < |c|
      invariant i <= |c| && TokenizeFrom(letters, c, 0) == Following(t, TokenizeFrom(letters, c, i))
    {
      var one := LexOne(c, i, letters);
      if one.Refuses? {
        return Rejected(one.why);
      }
      if one.end == i {
        return Endless(i);
      }
      if one.tok.Some? {
        t := t + [one.tok.value];
      }
      i := one.end;
    }
    return Tokens(t);
  }

  function Following(ts: seq<Tok>, r: Tokenized): (s: Tokenized) {
    if r.Tokens? then Tokens(ts + r.ts) else r
  }

  method ReadDigits(c: Text, start: nat, radix: nat) returns (digits: Text, j: nat)
    requires start <= |c|
    ensures j == DigitsEnd(c, start, radix) && digits == WithoutUnderscores(c[start..j])
  {
    j, digits := start, [];
    assert c[start..start] == [];
    while j < |c| && (c[j] == '_' || IsDigit(c[j], radix))
      invariant start <= j <= |c| && DigitsEnd(c, start, radix) == DigitsEnd(c, j, radix)
      invariant digits == WithoutUnderscores(c[start..j])
    {
      assert c[start..j + 1][..j - start] == c[start..j];
      if c[j] != '_' {
        digits := digits + [c[j]];
      }
      j := j + 1;
    }
  }

  method ReadName(c: Text, start: nat, colons: bool) returns (j: nat)
    requires start <= |c|
    ensures j == NameEnd(c, start, colons)
  {
    j := start;
    while j < |c| && (IsIdentChar(c[j]) || (colons && c[j] == ':'))
      invariant start <= j <= |c| && NameEnd(c, start, colons) == NameEnd(c, j, colons)
    {
      j := j + 1;
    }
  }

  /** Reads one token, scanning digits, suffixes and names character by character. */
  method LexOne(c: Text, i: nat, letters: Letters) returns (r: Lexed)
    requires i < |c|
    ensures r == LexAt(letters, c, i)
  {
    hide FromDigits, NameEnd, DigitsEnd, WithoutUnderscores, RadixAt;
    var ch := c[i];
    if IsSpace(ch) {
      return Reads(None, i + 1);
    } else if '0' <= ch <= '9' {
      var (radix, start) := RadixAt(c, i);
      var digits, j := ReadDigits(c, start, radix);
      if j < |c| && (c[j] == 'u' || c[j] == 'i') {
        j := ReadName(c, j, false);
      }
      var v := FromDigits(digits, radix);
      return if v.None? then Refuses(BadLiteral(i)) else Reads(Some(Num(v.value)), j);
    } else if letters(ch) || ch == '_' {
      var j := ReadName(c, i, true);
      return Reads(Some(Ident(c[i..j])), j);
    } else if ch == '<' && i + 1 < |c| && c[i + 1] == '<' {
      return Reads(Some(ShlTok), i + 2);
    } else if ch == '>' && i + 1 < |c| && c[i + 1] == '>' {
      return Reads(Some(ShrTok), i + 2);
    } else if ch in "+-*/()|&" {
      return Reads(Some(Sym(ch)), i + 1);
    }
    return Refuses(Unsupported(ch));
  }

  // ----- when it ends

  /** A step consumes nothing exactly at a letter outside ASCII, and never consumes one. */
  lemma StallsIff(letters: Letters, c: Text, i: nat)
    requires Sensible(letters) && i < |c| && LexAt(letters, c, i).Reads?
    ensures LexAt(letters, c, i).end == i <==> Stalls(letters, c[i])
    ensures forall k :: i <= k < LexAt(letters, c, i).end ==> !Stalls(letters, c[k])
  {
    hide ValueOf, WithoutUnderscores, FromDigits;
    if !IsSpace(c[i]) && '0' <= c[i] <= '9' {
      NumberAdvances(c, i);
    }
  }

  lemma NumberAdvances(c: Text, i: nat)
    requires i < |c| && '0' <= c[i] <= '9' && NumberAt(c, i).Reads?
    ensures i < NumberAt(c, i).end
  {
    var (radix, start) := RadixAt(c, i);
  }

  /** `k` is the first letter outside ASCII from `i` on. */
  ghost predicate FirstStall(letters: Letters, c: Text, i: nat, k: nat) {
    i <= k < |c| && Stalls(letters, c[k]) && forall m :: i <= m < k ==> !Stalls(letters, c[m])
  }

  /** Tokenizing never ends exactly when the text before the first letter outside ASCII tokenizes; it then gets to
      that letter and no further. */
  lemma EndsIff(letters: Letters, c: Text, i: nat, k: nat)
    requires Sensible(letters) && i <= |c|
    ensures TokenizeFrom(letters, c, i) == Endless(k) <==> FirstStall(letters, c, i, k) && TokenizeFrom(letters, c[..k], i).Tokens?
    ensures TokenizeFrom(letters, c, i).Tokens? ==> forall m :: i <= m < |c| ==> !Stalls(letters, c[m])
  {
    hide TokenizeFrom, FirstStall, Sensible;
    EndlessAt(letters, c, i);
    if FirstStall(letters, c, i, k) { StallReached(letters, c, i, k); }
  }

  lemma {:induction false} EndlessAt(letters: Letters, c: Text, i: nat)
    requires Sensible(letters) && i <= |c|
    ensures TokenizeFrom(letters, c, i).Tokens? ==> forall m :: i <= m < |c| ==> !Stalls(letters, c[m])
    ensures TokenizeFrom(letters, c, i).Endless? ==> FirstStall(letters, c, i, TokenizeFrom(letters, c, i).at)
    decreases |c| - i
  {
    hide LexAt, Stalls, Sensible;
    if i < |c| {
      var one := LexAt(letters, c, i);
      if one.Reads? {
        StallsIff(letters, c, i);
        if i < one.end { EndlessAt(letters, c, one.end); }
      }
    }
  }

  lemma {:induction false} StallReached(letters: Letters, c: Text, i: nat, k: nat)
    requires Sensible(letters) && FirstStall(letters, c, i, k)
    ensures TokenizeFrom(letters, c, i) == Endless(k) <==> TokenizeFrom(letters, c[..k], i).Tokens?
    decreases k - i
  {
    hide LexAt, Sensible;
    if i < k {
      LexPrefix(letters, c, i, k);
      var one := LexAt(letters, c, i);
      if one.Reads? {
        StallsIff(letters, c, i);
        StallReached(letters, c, one.end, k);
      }
    } else {
      StallStands(letters, c, i);
    }
  }

  lemma StallStands(letters: Letters, c: Text, i: nat)
    requires i < |c| && Stalls(letters, c[i])
    ensures LexAt(letters, c, i).Reads? && LexAt(letters, c, i).end == i
  {
  }

  /** No token reaches into or looks beyond a letter outside ASCII. */
  lemma LexPrefix(letters: Letters, c: Text, i: nat, k: nat)
    requires i < k < |c| && !IsAscii(c[k])
    ensures LexAt(letters, c[..k], i) == LexAt(letters, c, i)
  {
    hide ValueOf, WithoutUnderscores, FromDigits, NameEnd, DigitsEnd;
    var d := c[..k];
    if !IsSpace(c[i]) && '0' <= c[i] <= '9' {
      NumberPrefix(c, i, k);
    } else if letters(c[i]) || c[i] == '_' {
      NamePrefix(c, i, k, true);
      assert d[i..NameEnd(c, i, true)] == c[i..NameEnd(c, i, true)];
    }
  }

  lemma NumberPrefix(c: Text, i: nat, k: nat)
    requires i < k < |c| && !IsAscii(c[k])
    ensures NumberAt(c[..k], i) == NumberAt(c, i)
  {
    hide ValueOf, WithoutUnderscores, FromDigits, NameEnd, DigitsEnd;
    var d := c[..k];
    var (radix, start) := RadixAt(c, i);
    DigitsPrefix(c, start, k, radix);
    var j := DigitsEnd(c, start, radix);
    NamePrefix(c, j, k, false);
    assert d[start..j] == c[start..j];
  }

  lemma {:induction false} DigitsPrefix(c: Text, j: nat, k: nat, radix: nat)
    requires j <= k < |c| && !IsAscii(c[k]) && radix <= 36
    ensures DigitsEnd(c, j, radix) <= k && DigitsEnd(c[..k], j, radix) == DigitsEnd(c, j, radix)
    decreases k - j
  {
    if j < k { DigitsPrefix(c, j + 1, k, radix); }
  }

  lemma {:induction false} NamePrefix(c: Text, j: nat, k: nat, colons: bool)
    requires j <= k < |c| && !IsAscii(c[k])
    ensures NameEnd(c, j, colons) <= k && NameEnd(c[..k], j, colons) == NameEnd(c, j, colons)
    decreases k - j
  {
    if j < k { NamePrefix(c, j + 1, k, colons); }
  }

  /** Tokenizing a text that begins with a letter outside ASCII never ends. */
  lemma EndlessText(letters: Letters, ch: char, more: Text)
    requires Stalls(letters, ch)
    ensures TokenizeFrom(letters, [ch] + more, 0) == Endless(0)
  {
  }

  /** Tokenizing a text without letters outside ASCII always ends. */
  lemma AsciiEnds(letters: Letters, c: Text, i: nat)
    requires Sensible(letters) && i <= |c| && forall k :: i <= k < |c| ==> !Stalls(letters, c[k])
    ensures !TokenizeFrom(letters, c, i).Endless?
  {
    EndlessAt(letters, c, i);
  }

  // ----- rendering tokens

  /** The tokens that have a text: numbers a literal can denote, identifiers, and the symbols read. */
  predicate Writable(t: Tok) {
    match t
    case Num(n) => 0 <= n < LIMIT
    case Ident(name) =>
      && name != [] && (IsAsciiLetter(name[0]) || name[0] == '_')
      && forall i :: 0 <= i < |name| ==> IsIdentChar(name[i]) || name[i] == ':'
    case Sym(ch) => ch in "+-*/()|&"
    case ShlTok => true
    case ShrTok => true
  }

  function Digit(d: nat): (c: char)
    requires d < 10
    ensures '0' <= c <= '9' && DigitOf(c) == d
  {
    '0' + d as char
  }

  function Decimal(n: nat): (s: Text)
    ensures s != [] && forall i :: 0 <= i < |s| ==> '0' <= s[i] <= '9'
    ensures s[0] == '0' ==> n == 0 && |s| == 1
  {
    (if n < 10 then [] else Decimal(n / 10)) + [Digit(n % 10)]
  }

  function Write(t: Tok): (s: Text)
    requires Writable(t)
    ensures s != []
  {
    match t
    case Num(n) => Decimal(n)
    case Ident(name) => name
    case Sym(ch) => [ch]
    case ShlTok => "<<"
    case ShrTok => ">>"
  }

  /** Tokens written one after the other, each followed by a space. */
  function WriteAll(ts: seq<Tok>): (s: Text)
    requires forall t :: t in ts ==> Writable(t)
  {
    if ts == [] then [] else Write(ts[0]) + " " + WriteAll(ts[1..])
  }

  lemma {:induction false} DecimalValue(n: nat)
    ensures ValueOf(Decimal(n), 10) == n && WithoutUnderscores(Decimal(n)) == Decimal(n)
  {
    var s, last := Decimal(n), Digit(n % 10);
    if n < 10 {
      assert s == [last] && s[..0] == [];
    } else {
      DecimalValue(n / 10);
      assert s[..|s| - 1] == Decimal(n / 10);
    }
  }

  /** `s` stands at `i` in `c`, followed by a space. */
  predicate Stands(c: Text, i: nat, s: Text) {
    i + |s| < |c| && c[i..i + |s|] == s && c[i + |s|] == ' '
  }

  lemma {:induction false} DigitsStand(c: Text, j: nat, end: nat)
    requires j <= end < |c| && c[end] == ' ' && forall k :: j <= k < end ==> '0' <= c[k] <= '9'
    ensures DigitsEnd(c, j, 10) == end
    decreases end - j
  {
    if j < end { DigitsStand(c, j + 1, end); }
  }

  lemma {:induction false} NameStands(c: Text, j: nat, end: nat)
    requires j <= end < |c| && c[end] == ' ' && forall k :: j <= k < end ==> IsIdentChar(c[k]) || c[k] == ':'
    ensures NameEnd(c, j, true) == end
    decreases end - j
  {
    if j < end { NameStands(c, j + 1, end); }
  }

  lemma StandsAt(c: Text, i: nat, s: Text)
    requires Stands(c, i, s)
    ensures forall k :: 0 <= k < |s| ==> c[i + k] == s[k]
  {
    forall k | 0 <= k < |s| ensures c[i + k] == s[k] {
      assert c[i..i + |s|][k] == c[i + k];
    }
  }

  lemma NumberStands(c: Text, i: nat, n: nat)
    requires Stands(c, i, Decimal(n)) && n < LIMIT
    ensures NumberAt(c, i) == Reads(Some(Num(n)), i + |Decimal(n)|)
  {
    hide ValueOf, WithoutUnderscores, Decimal;
    var s := Decimal(n);
    StandsAt(c, i, s);
    var end := i + |s|;
    assert c[i] == s[0];
    assert RadixAt(c, i) == (10, i);
    forall k | i <= k < end ensures '0' <= c[k] <= '9' { assert c[k] == s[k - i]; }
    DigitsStand(c, i, end);
    DecimalValue(n);
  }

  // ----- literals of every radix

  type HexDigit = d: nat | d < 16

  /** What a literal is written with: underscores anywhere, and digits, those from ten on as letters of either case. */
  datatype Mark = Underscore | Dig(d: HexDigit, upper: bool)

  function MarkChar(m: Mark): (c: char) {
    if m.Underscore? then '_'
    else if m.d < 10 then '0' + m.d as char
    else if m.upper then 'A' + (m.d - 10) as char
    else 'a' + (m.d - 10) as char
  }

  function MarkText(ms: seq<Mark>): (s: Text)
    ensures |s| == |ms| && forall i :: 0 <= i < |ms| ==> s[i] == MarkChar(ms[i])
  {
    seq(|ms|, i requires 0 <= i < |ms| => MarkChar(ms[i]))
  }

  predicate Below(ms: seq<Mark>, radix: nat) {
    forall i :: 0 <= i < |ms| ==> ms[i].Dig? ==> ms[i].d < radix
  }

  predicate NoDigits(ms: seq<Mark>) {
    forall i :: 0 <= i < |ms| ==> ms[i].Underscore?
  }

  function Amount(ms: seq<Mark>, radix: nat): (v: nat) {
    if ms == [] then 0
    else var m := ms[|ms| - 1]; if m.Underscore? then Amount(ms[..|ms| - 1], radix) else Amount(ms[..|ms| - 1], radix) * radix + m.d
  }

  function Lead(radix: nat): (s: Text) {
    if radix == 16 then "0x" else if radix == 8 then "0o" else if radix == 2 then "0b" else ""
  }

  lemma MarkDigit(m: Mark)
    ensures MarkChar(m) == '_' <==> m.Underscore?
    ensures m.Dig? ==> DigitOf(MarkChar(m)) == m.d
  {
  }

  lemma {:induction false} AmountIs(ms: seq<Mark>, radix: nat)
    ensures var s := WithoutUnderscores(MarkText(ms)); ValueOf(s, radix) == Amount(ms, radix) && (s == [] <==> NoDigits(ms))
  {
    hide MarkText, DigitOf, MarkChar;
    if ms != [] {
      var init, m := ms[..|ms| - 1], ms[|ms| - 1];
      AmountIs(init, radix);
      MarkDigit(m);
      assert MarkText(ms)[..|ms| - 1] == MarkText(init);
      OneMoreDigit(MarkText(ms), radix);
      assert NoDigits(ms) <==> NoDigits(init) && m.Underscore?;
    }
  }

  lemma OneMoreDigit(t: Text, radix: nat)
    requires t != []
    ensures var s, ch := WithoutUnderscores(t[..|t| - 1]), t[|t| - 1];
      && WithoutUnderscores(t) == (if ch == '_' then s else s + [ch])
      && (ch != '_' ==> ValueOf(WithoutUnderscores(t), radix) == ValueOf(s, radix) * radix + DigitOf(ch))
  {
    hide DigitOf;
    var s, ch := WithoutUnderscores(t[..|t| - 1]), t[|t| - 1];
    assert (s + [ch])[..|s|] == s;
  }

  lemma {:induction false} MarksStand(c: Text, j: nat, ms: seq<Mark>, n: nat, radix: nat)
    requires Below(ms, radix) && n <= |ms| && j + |ms| < |c| && forall i :: 0 <= i < |ms| ==> c[j + i] == MarkChar(ms[i])
    requires c[j + |ms|] != '_' && !IsDigit(c[j + |ms|], radix)
    ensures DigitsEnd(c, j + n, radix) == j + |ms|
    decreases |ms| - n
  {
    hide DigitOf, MarkChar;
    if n < |ms| {
      assert c[j + n] == MarkChar(ms[n]);
      MarkDigit(ms[n]);
      MarksStand(c, j, ms, n + 1, radix);
    }
  }

  lemma {:induction false} SuffixStands(c: Text, j: nat, end: nat)
    requires j <= end < |c| && c[end] == ' ' && forall k :: j <= k < end ==> IsIdentChar(c[k])
    ensures NameEnd(c, j, false) == end
    decreases end - j
  {
    if j < end { SuffixStands(c, j + 1, end); }
  }

  /** A type suffix: none, or one that begins with `u` or `i`. */
  predicate IsSuffix(z: Text) {
    z == [] || ((z[0] == 'u' || z[0] == 'i') && forall i :: 0 <= i < |z| ==> IsIdentChar(z[i]))
  }

  /** A literal stands at `i`: what it leads with, its marks, its suffix, and a space. */
  predicate LiteralAt(c: Text, i: nat, radix: nat, ms: seq<Mark>, z: Text) {
    var start := i + |Lead(radix)|;
    && start + |ms| + |z| < |c| && c[start + |ms| + |z|] == ' '
    && (forall k :: 0 <= k < |Lead(radix)| ==> c[i + k] == Lead(radix)[k])
    && (forall k :: 0 <= k < |ms| ==> c[start + k] == MarkChar(ms[k]))
    && (forall k :: 0 <= k < |z| ==> c[start + |ms| + k] == z[k])
  }

  lemma LiteralStands(c: Text, i: nat, radix: nat, ms: seq<Mark>, z: Text)
    requires Stands(c, i, Lead(radix) + MarkText(ms) + z)
    ensures LiteralAt(c, i, radix, ms, z)
  {
    hide Lead, MarkText, MarkChar;
    var lead, text := Lead(radix), MarkText(ms);
    var s := lead + text + z;
    StandsAt(c, i, s);
    forall k | 0 <= k < |lead| ensures c[i + k] == lead[k] { assert s[k] == lead[k]; }
    forall k | 0 <= k < |ms| ensures c[i + |lead| + k] == MarkChar(ms[k]) { assert s[|lead| + k] == text[k]; }
    forall k | 0 <= k < |z| ensures c[i + |lead| + |ms| + k] == z[k] { assert s[|lead| + |ms| + k] == z[k]; }
  }

  /** A binary, octal, decimal or hexadecimal literal, underscores and type suffix included, denotes what its digits do;
      one without digits, or of 2^127 or more, is refused. A decimal one begins with a digit. */
  lemma LiteralReads(c: Text, i: nat, radix: nat, ms: seq<Mark>, z: Text)
    requires radix in {2, 8, 10, 16} && Below(ms, radix) && IsSuffix(z) && (radix == 10 ==> 0 < |ms| && ms[0].Dig?)
    requires Stands(c, i, Lead(radix) + MarkText(ms) + z)
    ensures NumberAt(c, i) ==
      if NoDigits(ms) || Pow2(127) <= Amount(ms, radix) then Refuses(BadLiteral(i))
      else Reads(Some(Num(Amount(ms, radix))), i + |Lead(radix)| + |ms| + |z|)
  {
    hide ValueOf, WithoutUnderscores, Amount, Pow2, MarkText, DigitsEnd, RadixAt, LiteralAt, IsSuffix, NoDigits, SuffixEnd, Lead, Below;
    var start := i + |Lead(radix)|;
    LiteralStands(c, i, radix, ms, z);
    LeadFound(c, i, radix, ms, z);
    DigitsFound(c, i, radix, ms, z);
    AmountIs(ms, radix);
  }

  lemma LeadFound(c: Text, i: nat, radix: nat, ms: seq<Mark>, z: Text)
    requires radix in {2, 8, 10, 16} && IsSuffix(z) && (radix == 10 ==> 0 < |ms| && ms[0].Dig?) && Below(ms, radix) && LiteralAt(c, i, radix, ms, z)
    ensures i < |c| && RadixAt(c, i) == (radix, i + |Lead(radix)|)
  {
    if radix == 10 {
      assert c[i + 0] == MarkChar(ms[0]);
      if 1 < |ms| { assert c[i + 1] == MarkChar(ms[1]); } else if z != [] { assert c[i + 1 + 0] == z[0]; }
    } else {
      assert c[i + 0] == Lead(radix)[0] && c[i + 1] == Lead(radix)[1];
    }
  }

  lemma DigitsFound(c: Text, i: nat, radix: nat, ms: seq<Mark>, z: Text)
    requires radix <= 16 && IsSuffix(z) && Below(ms, radix) && LiteralAt(c, i, radix, ms, z)
    ensures var start := i + |Lead(radix)|;
      && start + |ms| <= |c| && DigitsEnd(c, start, radix) == start + |ms| && c[start..start + |ms|] == MarkText(ms)
      && SuffixEnd(c, start + |ms|) == start + |ms| + |z|
  {
    hide MarkChar, DigitsEnd, NameEnd, Below, Lead;
    var start := i + |Lead(radix)|;
    var j := start + |ms|;
    var end := j + |z|;
    if z != [] {
      assert c[j + 0] == z[0];
      forall k | j <= k < end ensures IsIdentChar(c[k]) { assert c[j + (k - j)] == z[k - j]; }
      SuffixStands(c, j, end);
    }
    MarksStand(c, start, ms, 0, radix);
    assert c[start..j] == MarkText(ms);
  }

  /** A written token reads back as itself. */
  lemma TokenStands(letters: Letters, c: Text, i: nat, t: Tok)
    requires Sensible(letters) && Writable(t) && Stands(c, i, Write(t))
    ensures LexAt(letters, c, i) == Reads(Some(t), i + |Write(t)|)
  {
    hide NumberAt, Decimal, NameEnd;
    StandsAt(c, i, Write(t));
    assert c[i] == Write(t)[0];
    match t
    case Num(n) => NumberStands(c, i, n);
    case Ident(name) =>
      forall k | i <= k < i + |name| ensures IsIdentChar(c[k]) || c[k] == ':' { assert c[k] == name[k - i]; }
      NameStands(c, i, i + |name|);
    case Sym(_) =>
    case ShlTok => assert c[i + 1] == Write(t)[1];
    case ShrTok => assert c[i + 1] == Write(t)[1];
  }

  /** Tokenizing written tokens gives them back. */
  lemma {:induction false} WrittenTokenizes(letters: Letters, c: Text, i: nat, ts: seq<Tok>)
    requires Sensible(letters) && (forall t :: t in ts ==> Writable(t)) && i <= |c| && c[i..] == WriteAll(ts)
    ensures TokenizeFrom(letters, c, i) == Tokens(ts)
    decreases |ts|
  {
    hide LexAt, Write, Sensible;
    if ts != [] {
      var s, rest := Write(ts[0]), WriteAll(ts[1..]);
      var end := i + |s|;
      assert c[i..] == s + (" " + rest);
      assert c[i..][..|s|] == c[i..end] && c[i..][|s|] == c[end] && c[i..][|s| + 1..] == c[end + 1..];
      TokenStands(letters, c, i, ts[0]);
      SpaceReads(letters, c, end);
      WrittenTokenizes(letters, c, end + 1, ts[1..]);
      assert [ts[0]] + ts[1..] == ts;
    }
  }

  lemma SpaceReads(letters: Letters, c: Text, i: nat)
    requires i < |c| && c[i] == ' '
    ensures LexAt(letters, c, i) == Reads(None, i + 1)
  {
  }

  // ----- texts of expressions

  /** What evaluating a text gives, if tokenizing it ends with tokens. */
  function EvaluateText(letters: Letters, c: Text, lookup: Lookup): (r: Option<Result>) {
    var ts := TokenizeFrom(letters, c, 0);
    if ts.Tokens? then Some(Evaluate(ts.ts, lookup)) else None
  }

  /** The text of any expression whose tokens can be written evaluates to its value or its first error. */
  lemma TextEvaluates(letters: Letters, e: Expr, lookup: Lookup)
    requires Sensible(letters) && forall t :: t in EvaluatorTheorems.Tokens(Parenthesized(e, 0)) ==> Writable(t)
    ensures EvaluateText(letters, WriteAll(EvaluatorTheorems.Tokens(Parenthesized(e, 0))), lookup) == Some(Eval(e, lookup))
  {
    hide Evaluate, Eval, WriteAll;
    var ts := EvaluatorTheorems.Tokens(Parenthesized(e, 0));
    var c := WriteAll(ts);
    assert c[0..] == c;
    WrittenTokenizes(letters, c, 0, ts);
    EvaluatesExpressions(e, lookup);
  }
}

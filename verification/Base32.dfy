/** Room codes: lists of 32-bit numbers in base 32, joined by dots. Text is ASCII. */
module Base32 {
  import opened ByteStrings

  const ALPHABET := "0123456789ABCDEFGHJKMNPQRSTVWXYZ"

  const U32: nat := 0x1_0000_0000

  /** A parsed code word, no number, or an arithmetic overflow that stops a checked build. */
  datatype Word = Number(value: nat) | Invalid | Overflow

  // ---------- Characters ----------

  predicate IsSpace(c: char) {
    c == ' ' || '\t' <= c <= '\r'
  }

  function Upper(c: char): char {
    if 'a' <= c <= 'z' then c - 'a' + 'A' else c
  }

  /** Upper case, with the two letters that look like 1 read as 1. */
  function Norm(c: char): char {
    var u := Upper(c);
    if u == 'I' || u == 'L' then '1' else u
  }

  /** The first position of `c` in the alphabet, from `i` on. */
  function Position(c: char, i: nat): (r: Option<nat>)
    requires i <= 32
    ensures r.Some? ==> i <= r.value < 32 && ALPHABET[r.value] == c
    ensures r.None? ==> forall j :: i <= j < 32 ==> ALPHABET[j] != c
    decreases 32 - i
  {
    if i == 32 then None else if ALPHABET[i] == c then Some(i) else Position(c, i + 1)
  }

  /** The value of a digit: its position in the alphabet. */
  function Digit(c: char): (d: Option<nat>)
    ensures d.Some? ==> d.value < 32 && ALPHABET[d.value] == c
    ensures d.None? ==> c !in ALPHABET
  {
    Position(c, 0)
  }

  lemma AlphabetAscends(i: nat, j: nat)
    requires i < j < 32
    ensures ALPHABET[i] < ALPHABET[j]
  {
    assert forall k {:trigger ALPHABET[k]} :: 0 <= k < 31 ==> ALPHABET[k] < ALPHABET[k + 1];
    if i + 1 < j {
      AlphabetAscends(i, j - 1);
    }
  }

  lemma DigitOfAlphabet(i: nat)
    requires i < 32
    ensures Digit(ALPHABET[i]) == Some(i)
  {
    var d := Digit(ALPHABET[i]);
    assert ALPHABET[i] in ALPHABET;
    if d.value < i {
      AlphabetAscends(d.value, i);
    } else if i < d.value {
      AlphabetAscends(i, d.value);
    }
  }

  /** The digit of value `i`, without the alphabet: 0 to 9, then the capitals but for I, L, O and U. */
  function DigitChar(i: nat): char
    requires i < 32
  {
    if i < 10 then '0' + i as char
    else if i < 18 then 'A' + (i - 10) as char
    else if i < 20 then 'J' + (i - 18) as char
    else if i < 22 then 'M' + (i - 20) as char
    else if i < 27 then 'P' + (i - 22) as char
    else 'V' + (i - 27) as char
  }

  lemma AlphabetExactly(i: nat)
    requires i < 32
    ensures ALPHABET[i] == DigitChar(i)
  {
    assert forall k {:trigger ALPHABET[k]} :: 0 <= k < 32 ==> ALPHABET[k] == DigitChar(k);
  }

  function TrimLeft(s: string): string {
    if s != [] && IsSpace(s[0]) then TrimLeft(s[1..]) else s
  }

  function TrimRight(s: string): string {
    if s != [] && IsSpace(s[|s| - 1]) then TrimRight(s[..|s| - 1]) else s
  }

  function Trim(s: string): string {
    TrimRight(TrimLeft(s))
  }

  function Normalize(s: string): (t: string)
    ensures |t| == |s| && forall i :: 0 <= i < |s| ==> t[i] == Norm(s[i])
  {
    seq(|s|, i requires 0 <= i < |s| => Norm(s[i]))
  }

  // ---------- Positional value ----------

  function Pow(n: nat): (p: nat)
    ensures 0 < p
  {
    if n == 0 then 1 else 32 * Pow(n - 1)
  }

  predicate AllDigits(t: string) {
    forall i :: 0 <= i < |t| ==> Digit(t[i]).Some?
  }

  /** The number that a string of digits stands for, most significant digit first. */
  function Val(t: string): nat
    requires AllDigits(t)
  {
    if t == [] then 0 else Digit(t[0]).value * Pow(|t| - 1) + Val(t[1..])
  }

  function Last(t: string, n: nat): string {
    if n <= |t| then t[|t| - n..] else t
  }

  /** What the code makes of a normalised word, with arithmetic checked or not. */
  function WordOf(t: string, checked: bool): Word {
    if |t| <= 7 then
      if AllDigits(t) && Val(t) < U32 then Number(Val(t)) else Invalid
    else if checked then
      if AllDigits(Last(t, 8)) && Val(Last(t, 7)) < U32 then Overflow else Invalid
    else
      if AllDigits(t) && Val(Last(t, 7)) < U32 then Number(Val(Last(t, 7))) else Invalid
  }

  lemma {:induction false} ValSnoc(t: string, c: char)
    requires AllDigits(t) && Digit(c).Some?
    ensures AllDigits(t + [c]) && Val(t + [c]) == 32 * Val(t) + Digit(c).value
  {
    hide Digit;
    var u := t + [c];
    if t == [] {
      assert u == [c] && u[1..] == [];
      assert Pow(0) == 1;
    } else {
      assert u[1..] == t[1..] + [c];
      ValSnoc(t[1..], c);
      ShiftedPlace(Digit(t[0]).value, |t| - 1);
      hide Pow;
      assert Val(u) == Digit(t[0]).value * Pow(|t|) + (32 * Val(t[1..]) + Digit(c).value);
    }
  }

  lemma ShiftedPlace(d: nat, n: nat)
    ensures d * Pow(n + 1) == 32 * (d * Pow(n))
  {
    var p := Pow(n);
    assert d * (32 * p) == 32 * (d * p);
  }

  /** A number of n digits is below 32^n, and a suffix stands for no more than the whole. */
  lemma {:induction false} ValBounds(t: string, n: nat)
    requires AllDigits(t) && n <= |t|
    ensures AllDigits(t[n..]) && Val(t[n..]) <= Val(t) < Pow(|t|)
  {
    hide Digit;
    if t == [] {
      assert t[n..] == t;
    } else {
      var d, p := Digit(t[0]).value, Pow(|t| - 1);
      assert d * p <= 31 * p;
      if n == 0 {
        assert t[n..] == t;
        ValBounds(t[1..], 0);
      } else {
        assert t[n..] == t[1..][n - 1..];
        ValBounds(t[1..], n - 1);
      }
    }
  }

  lemma Pows()
    ensures Pow(0) == 1 && Pow(1) == 32 && Pow(2) == 1024 && Pow(3) == 32768
    ensures Pow(4) == 1048576 && Pow(5) == 33554432 && Pow(6) == 1073741824 && Pow(7) == 34359738368
  {
    assert Pow(3) == 32 * Pow(2) && Pow(5) == 32 * Pow(4) && Pow(6) == 32 * Pow(5) && Pow(7) == 32 * Pow(6);
  }

  /** `32_u32.pow(i)` in wrapping arithmetic, and whether it overflows. */
  function PlaceValue(i: nat): (nat, bool) {
    if i < 7 then (Pow(i), false) else (0, true)
  }

  /** The wrapped power is the true power modulo 2^32. */
  lemma {:induction false} PlaceValueWraps(i: nat)
    ensures PlaceValue(i).0 == Pow(i) % U32 && PlaceValue(i).1 == (U32 <= Pow(i))
  {
    Pows();
    if 7 < i {
      PlaceValueWraps(i - 1);
      var p := Pow(i - 1);
      assert p == U32 * (p / U32);
      assert 32 * p == U32 * (32 * (p / U32));
    }
  }

  lemma ValCons(t: string, i: nat)
    requires i < |t| && AllDigits(Last(t, i)) && Digit(t[|t| - 1 - i]).Some?
    ensures AllDigits(Last(t, i + 1))
    ensures Val(Last(t, i + 1)) == Digit(t[|t| - 1 - i]).value * Pow(i) + Val(Last(t, i))
  {
    hide Digit, Val, Pow;
    var u := Last(t, i + 1);
    assert u[0] == t[|t| - 1 - i] && u[1..] == Last(t, i);
    assert AllDigits(u) by {
      assert forall k :: 1 <= k < |u| ==> u[k] == u[1..][k - 1];
    }
    ValUnfold(u);
  }

  lemma {:induction false} ValUnfold(t: string)
    requires AllDigits(t) && t != []
    ensures Val(t) == Digit(t[0]).value * Pow(|t| - 1) + Val(t[1..])
  {
    hide Digit, Pow;
  }

  /** Seven digits that are too large make the word invalid, whatever comes before them. */
  lemma TooLarge(t: string, i: nat, checked: bool)
    requires i < |t| && i < 7 && AllDigits(Last(t, i + 1)) && U32 <= Val(Last(t, i + 1))
    ensures WordOf(t, checked) == Invalid
  {
    hide Digit, Val;
    var u := Last(t, 7);
    LastOfLast(t, i + 1);
    if AllDigits(u) {
      ValBounds(u, |u| - (i + 1));
    }
  }

  lemma LastOfLast(t: string, n: nat)
    requires n <= 7 && n <= |t|
    ensures var u := Last(t, 7); n <= |u| && Last(t, n) == u[|u| - n..]
  {
  }

  lemma BadDigit(t: string, i: nat, checked: bool)
    requires i < |t| && Digit(t[|t| - 1 - i]).None? && (checked ==> i <= 7)
    ensures WordOf(t, checked) == Invalid
  {
    hide Digit;
    if 8 <= |t| && i <= 7 {
      assert Last(t, 8)[7 - i] == t[|t| - 1 - i];
    }
  }

  function AtMost7(i: nat): nat {
    if i < 7 then i else 7
  }

  /** The parsing loop: digits from the right, with checked multiplication and addition. */
  method StrToU32(s: string, checked: bool) returns (r: Word)
    ensures r == WordOf(Normalize(Trim(s)), checked)
  {
    hide Digit, Val, Pow;
    var t := Normalize(Trim(s));
    var num := 0;
    assert Val(Last(t, 0)) == 0 by {
      EmptyVal(Last(t, 0));
    }
    for i := 0 to |t|
      invariant checked ==> i <= 7
      invariant AllDigits(Last(t, i)) && AllDigits(Last(t, AtMost7(i)))
      invariant num == Val(Last(t, AtMost7(i))) < U32
    {
      var digit := Digit(t[|t| - 1 - i]);
      if digit.None? {
        BadDigit(t, i, checked);
        return Invalid;
      }
      ValCons(t, i);
      var (place, overflows) := PlaceValue(i);
      if overflows && checked {
        return Overflow;
      }
      var addend := digit.value * place;
      if U32 <= addend || U32 <= num + addend {
        TooLarge(t, i, checked);
        return Invalid;
      }
      num := num + addend;
    }
    assert Last(t, |t|) == t;
    return Number(num);
  }

  lemma EmptyVal(t: string)
    requires t == []
    ensures AllDigits(t) && Val(t) == 0
  {
  }

  // ---------- Printing ----------

  function Digits(n: nat): string {
    if n == 0 then [] else Digits(n / 32) + [ALPHABET[n % 32]]
  }

  function Encode(n: nat): string {
    if n == 0 then "0" else Digits(n)
  }

  function Reverse(s: string): string {
    if s == [] then [] else Reverse(s[1..]) + [s[0]]
  }

  lemma {:induction false} ReverseSnoc(s: string, c: char)
    ensures Reverse(s + [c]) == [c] + Reverse(s)
  {
    if s == [] {
      assert s + [c] == [c] && [c][1..] == [];
    } else {
      assert (s + [c])[1..] == s[1..] + [c];
      ReverseSnoc(s[1..], c);
    }
  }

  lemma PrintStep(n: nat, s: string)
    requires n != 0
    ensures Digits(n) + Reverse(s) == Digits(n / 32) + Reverse(s + [ALPHABET[n % 32]])
  {
    var c := ALPHABET[n % 32];
    ReverseSnoc(s, c);
    hide Reverse;
    assert Digits(n / 32) + [c] + Reverse(s) == Digits(n / 32) + ([c] + Reverse(s));
  }

  /** The printing loop: digits from the right, then reversed. */
  method U32ToStr(num: nat) returns (r: string)
    requires num < U32
    ensures r == Encode(num)
  {
    var n := num;
    var s: string := [];
    while n != 0
      invariant Digits(num) == Digits(n) + Reverse(s)
      invariant num != 0 && n == 0 ==> s != []
    {
      PrintStep(n, s);
      s := s + [ALPHABET[n % 32]];
      n := n / 32;
    }
    r := Reverse(s);
    assert Digits(num) == r;
    if r == [] {
      r := "0";
    }
  }

  lemma {:induction false} DigitsValue(n: nat)
    ensures AllDigits(Digits(n)) && Val(Digits(n)) == n
  {
    hide Digit;
    if n != 0 {
      DigitsValue(n / 32);
      DigitOfAlphabet(n % 32);
      ValSnoc(Digits(n / 32), ALPHABET[n % 32]);
    }
  }

  /** A number below 32^k prints as at most k digits. */
  lemma {:induction false} DigitsLength(n: nat, k: nat)
    requires n < Pow(k)
    ensures |Digits(n)| <= k
  {
    if n != 0 {
      assert k != 0;
      DigitsLength(n / 32, k - 1);
    }
  }

  /** Printing then parsing a 32-bit number gives it back. */
  lemma EncodeIsParsed(n: nat, checked: bool)
    requires n < U32
    ensures 1 <= |Encode(n)| <= 7 && AllDigits(Encode(n))
    ensures WordOf(Encode(n), checked) == Number(n)
  {
    Pows();
    DigitsLength(n, 7);
    DigitsValue(n);
    if n == 0 {
      assert ALPHABET[0] == '0';
      DigitOfAlphabet(0);
      EmptyVal([]);
      ValSnoc([], '0');
      assert [] + ['0'] == "0";
    } else {
      assert Digits(n) != [];
    }
  }

  function StripZeros(t: string): string {
    if t != [] && t[0] == '0' then StripZeros(t[1..]) else t
  }

  lemma {:induction false} StripSnoc(t: string, c: char)
    ensures StripZeros(t + [c]) == if StripZeros(t) == [] then StripZeros([c]) else StripZeros(t) + [c]
  {
    if t == [] {
      assert t + [c] == [c];
    } else if t[0] == '0' {
      assert (t + [c])[1..] == t[1..] + [c];
      StripSnoc(t[1..], c);
    }
  }

  /** Parsing then printing a word gives it back without its leading zeros. */
  lemma {:induction false} ParsedIsEncoded(t: string)
    requires AllDigits(t)
    ensures Digits(Val(t)) == StripZeros(t)
  {
    hide Digit, Val, Digits;
    if t == [] {
      EmptyVal(t);
      NoDigitsIsZero(Val(t));
    } else {
      var u, c := t[..|t| - 1], t[|t| - 1];
      assert t == u + [c];
      ParsedIsEncoded(u);
      StripSnoc(u, c);
      ValSnoc(u, c);
      var d := Digit(c).value;
      if 0 < 32 * Val(u) + d {
        DigitsShift(Val(u), d);
      }
      NoDigitsIsZero(32 * Val(u) + d);
      assert (d == 0) == (c == '0') by {
        assert ALPHABET[0] == '0';
        DigitOfAlphabet(0);
      }
      NoDigitsIsZero(Val(u));
    }
  }

  lemma DigitsShift(v: nat, d: nat)
    requires d < 32 && 0 < 32 * v + d
    ensures Digits(32 * v + d) == Digits(v) + [ALPHABET[d]]
  {
    assert (32 * v + d) / 32 == v && (32 * v + d) % 32 == d;
  }

  lemma NoDigitsIsZero(n: nat)
    ensures Digits(n) == [] <==> n == 0
  {
  }

  /**
   * Exact decoding. A word of at most seven characters is a number exactly when all of them
   * are digits and it is below 2^32, and then the number prints as the word without its
   * leading zeros, or as "0".
   */
  lemma ExactDecoding(t: string, v: nat, checked: bool)
    requires |t| <= 7
    ensures WordOf(t, checked) == Number(v) <==> AllDigits(t) && Val(t) == v && v < U32
    ensures WordOf(t, checked) == Number(v) ==>
              Encode(v) == if StripZeros(t) == [] then "0" else StripZeros(t)
  {
    if AllDigits(t) {
      ParsedIsEncoded(t);
      NoDigitsIsZero(Val(t));
    }
  }

  /**
   * One digit more than seven: a checked build stops with an overflow, an unchecked one
   * reads the word as if the digit were not there, whatever it is.
   */
  lemma EighthDigit(t: string, c: char)
    requires |t| == 7 && AllDigits(t) && Val(t) < U32 && Digit(c).Some?
    ensures WordOf([c] + t, true) == Overflow
    ensures WordOf([c] + t, false) == WordOf(t, false) == Number(Val(t))
  {
    hide Digit, Val;
    var u := [c] + t;
    assert Last(u, 8) == u && Last(u, 7) == t;
  }

  // ---------- Lists of numbers ----------

  ghost predicate AllU32(vals: seq<nat>) {
    forall i :: 0 <= i < |vals| ==> vals[i] < U32
  }

  /** The words of the numbers with dots in between. */
  function Joined(vals: seq<nat>): string {
    if vals == [] then []
    else if |vals| == 1 then Encode(vals[0])
    else Encode(vals[0]) + ['.'] + Joined(vals[1..])
  }

  lemma {:induction false} JoinedSnoc(vals: seq<nat>, v: nat)
    requires vals != []
    ensures Joined(vals + [v]) == Joined(vals) + ['.'] + Encode(v)
  {
    var w := vals + [v];
    assert w[1..] == vals[1..] + [v];
    if |vals| == 1 {
      assert w[1..] == [v];
    } else {
      JoinedSnoc(vals[1..], v);
    }
  }

  /** The loop of `to_string`: a dot before every word but the first. */
  method ToString(vals: seq<nat>) returns (s: string)
    requires AllU32(vals)
    ensures s == Joined(vals)
  {
    hide Encode, Digit, Val, WordOf;
    s := [];
    for i := 0 to |vals|
      invariant s == Joined(vals[..i])
      invariant s == [] <==> i == 0
    {
      var word := U32ToStr(vals[i]);
      EncodeIsParsed(vals[i], true);
      assert vals[..i + 1] == vals[..i] + [vals[i]];
      if s != [] {
        JoinedSnoc(vals[..i], vals[i]);
        s := s + ['.'];
      } else {
        assert vals[..i + 1] == [vals[i]];
      }
      s := s + word;
    }
    assert vals[..|vals|] == vals;
  }

  function Split(s: string): (parts: seq<string>)
    ensures parts != []
  {
    if s == [] then [[]]
    else
      var rest := Split(s[1..]);
      if s[0] == '.' then [[]] + rest else [[s[0]] + rest[0]] + rest[1..]
  }

  /** The numbers of a list of words; the first word that is none decides how it ends. */
  datatype Numbers = Numbers(vals: seq<nat>) | Exit | Panic

  function WordsOf(parts: seq<string>, checked: bool): Numbers {
    if parts == [] then Numbers([])
    else
      match WordOf(Normalize(Trim(parts[0])), checked)
      case Invalid => Exit
      case Overflow => Panic
      case Number(v) =>
        var rest := WordsOf(parts[1..], checked);
        if rest.Numbers? then Numbers([v] + rest.vals) else rest
  }

  function FromString(s: string, checked: bool): Numbers {
    WordsOf(Split(Trim(s)), checked)
  }

  /** The same text up to case and to I and L for 1. */
  ghost predicate Alike(t: string, s: string) {
    |t| == |s| && forall i :: 0 <= i < |s| ==> Norm(t[i]) == Norm(s[i])
  }

  ghost predicate Printed(s: string) {
    forall i :: 0 <= i < |s| ==> s[i] == '.' || Digit(s[i]).Some?
  }

  /** Digits are not spaces or dots, and are normal as they are. */
  lemma DigitChars(c: char)
    requires Digit(c).Some?
    ensures !IsSpace(c) && c != '.' && Norm(c) == c
  {
    AlphabetChar(Digit(c).value);
    hide Digit;
  }

  lemma AlphabetChar(i: nat)
    requires i < 32
    ensures var c := ALPHABET[i]; '0' <= c <= '9' || ('A' <= c <= 'Z' && c != 'I' && c != 'L')
  {
    assert forall k {:trigger ALPHABET[k]} :: 0 <= k < 32 ==>
        '0' <= ALPHABET[k] <= '9' || ('A' <= ALPHABET[k] <= 'Z' && ALPHABET[k] != 'I' && ALPHABET[k] != 'L');
  }

  lemma AlikeChar(t: char, c: char)
    requires Norm(t) == Norm(c) && (c == '.' || Digit(c).Some?)
    ensures !IsSpace(t) && (t == '.' <==> c == '.')
  {
    if c != '.' {
      DigitChars(c);
    }
    hide Digit;
  }

  /** A text like a printed one has no space to trim. */
  lemma TrimAlike(t: string, s: string)
    requires Alike(t, s) && Printed(s)
    ensures Trim(t) == t
  {
    hide Digit, Norm;
    if t != [] {
      AlikeChar(t[0], s[0]);
      AlikeChar(t[|t| - 1], s[|t| - 1]);
    }
  }

  /** Splitting at the first dot. */
  lemma {:induction false} SplitWord(w: string, s: string)
    requires forall i :: 0 <= i < |w| ==> w[i] != '.'
    ensures Split(w + s) == [w + Split(s)[0]] + Split(s)[1..]
  {
    if w == [] {
      assert w + s == s;
      assert w + Split(s)[0] == Split(s)[0];
    } else {
      assert (w + s)[1..] == w[1..] + s;
      SplitWord(w[1..], s);
      assert [w[0]] + (w[1..] + Split(s)[0]) == w + Split(s)[0];
    }
  }

  lemma OneWord(w: string)
    requires forall i :: 0 <= i < |w| ==> w[i] != '.'
    ensures Split(w) == [w]
  {
    SplitWord(w, []);
    assert w + [] == w;
  }

  lemma FirstWord(w: string, rest: string)
    requires forall i :: 0 <= i < |w| ==> w[i] != '.'
    ensures Split(w + ['.'] + rest) == [w] + Split(rest)
  {
    var tail := ['.'] + rest;
    assert w + ['.'] + rest == w + tail;
    SplitWord(w, tail);
    assert tail[1..] == rest;
    assert w + [] == w;
  }

  /** A word like a printed number is read as that number. */
  lemma WordAlike(t: string, v: nat, checked: bool)
    requires v < U32 && Alike(t, Encode(v))
    ensures Trim(t) == t && WordOf(Normalize(t), checked) == Number(v)
    ensures forall i :: 0 <= i < |t| ==> t[i] != '.'
  {
    var s := Encode(v);
    EncodeIsParsed(v, checked);
    TrimAlike(t, s);
    hide Digit, Encode, WordOf;
    forall i | 0 <= i < |t|
      ensures t[i] != '.' && Normalize(t)[i] == s[i]
    {
      DigitChars(s[i]);
      AlikeChar(t[i], s[i]);
    }
    assert Normalize(t) == s;
  }

  lemma {:induction false} JoinedIsPrinted(vals: seq<nat>)
    requires AllU32(vals)
    ensures Printed(Joined(vals))
  {
    if vals != [] {
      EncodeIsParsed(vals[0], true);
      JoinedIsPrinted(vals[1..]);
    }
  }

  /** `s` is `a`, a dot and `b`, position by position. */
  ghost predicate Dotted(s: string, a: string, b: string) {
    && |s| == |a| + 1 + |b| && s[|a|] == '.'
    && (forall i :: 0 <= i < |a| ==> s[i] == a[i])
    && (forall i :: |a| < i < |s| ==> s[i] == b[i - |a| - 1])
  }

  lemma DottedAlike(t: string, s: string, a: string, b: string)
    requires Alike(t, s) && Dotted(s, a, b)
    ensures Alike(t[..|a|], a) && Alike(t[|a| + 1..], b) && t[|a|] == '.'
  {
    hide Norm, Digit;
    AlikeChar(t[|a|], s[|a|]);
  }

  lemma AroundDot(t: string, n: nat)
    requires n < |t| && t[n] == '.'
    ensures t == t[..n] + ['.'] + t[n + 1..]
  {
  }

  /** A text alike two parts with a dot in between falls into parts alike those. */
  lemma AlikeParts(t: string, a: string, b: string)
    requires Alike(t, a + ['.'] + b)
    ensures var n := |a|;
            && n < |t| && Alike(t[..n], a) && Alike(t[n + 1..], b)
            && t == t[..n] + ['.'] + t[n + 1..]
  {
    var s := a + ['.'] + b;
    assert Dotted(s, a, b);
    assert |t| == |s|;
    hide Alike, Dotted;
    DottedAlike(t, s, a, b);
    AroundDot(t, |a|);
  }

  lemma {:induction false} WordsAlike(t: string, vals: seq<nat>, checked: bool)
    requires vals != [] && AllU32(vals) && Alike(t, Joined(vals))
    ensures WordsOf(Split(t), checked) == Numbers(vals)
  {
    hide Digit, Norm, WordOf, Encode, Alike, Split;
    if |vals| == 1 {
      WordAlike(t, vals[0], checked);
      OneWord(t);
      assert vals == [vals[0]];
    } else {
      var n := |Encode(vals[0])|;
      AlikeParts(t, Encode(vals[0]), Joined(vals[1..]));
      var w, rest := t[..n], t[n + 1..];
      WordAlike(w, vals[0], checked);
      FirstWord(w, rest);
      WordsAlike(rest, vals[1..], checked);
      assert vals == [vals[0]] + vals[1..];
    }
  }

  lemma CodeAlike(vals: seq<nat>, t: string, checked: bool)
    requires vals != [] && AllU32(vals) && Alike(t, Joined(vals))
    ensures FromString(t, checked) == Numbers(vals)
  {
    JoinedIsPrinted(vals);
    TrimAlike(t, Joined(vals));
    WordsAlike(t, vals, checked);
  }

  /** A character as a user may type it: as it is, in lower case, or a letter that looks like 1. */
  predicate TypedAs(c: char, t: char) {
    || t == c
    || ('A' <= c <= 'Z' && t as int == c as int + 32)
    || (c == '1' && t in {'I', 'L', 'i', 'l'})
  }

  ghost predicate Typed(s: string, t: string) {
    |t| == |s| && forall i :: 0 <= i < |s| ==> TypedAs(s[i], t[i])
  }

  /** The white space of ASCII: blank, tab, line feed, vertical tab, form feed and carriage return. */
  ghost predicate Blank(s: string) {
    forall i :: 0 <= i < |s| ==> s[i] in {' ', '\t', '\n', '\U{0B}', '\U{0C}', '\r'}
  }

  /** A character reads as the digit of value `d` exactly when it is a way to type that digit. */
  lemma TypedExactly(c: char, d: nat)
    requires d < 32
    ensures Digit(Norm(c)) == Some(d) <==> TypedAs(ALPHABET[d], c)
  {
    DigitOfAlphabet(d);
    assert Digit(Norm(c)) == Some(d) <==> Norm(c) == ALPHABET[d];
    AlphabetExactly(d);
    hide Digit;
  }

  lemma TypedIsAlike(s: string, t: string)
    requires Typed(s, t)
    ensures Alike(t, s)
  {
  }

  lemma {:induction false} TrimLeftBlank(pre: string, s: string)
    requires Blank(pre)
    ensures TrimLeft(pre + s) == TrimLeft(s)
  {
    if pre == [] {
      assert pre + s == s;
    } else {
      assert (pre + s)[0] == pre[0] && (pre + s)[1..] == pre[1..] + s;
      TrimLeftBlank(pre[1..], s);
    }
  }

  lemma {:induction false} TrimRightBlank(s: string, post: string)
    requires Blank(post)
    ensures TrimRight(s + post) == TrimRight(s)
  {
    if post == [] {
      assert s + post == s;
    } else {
      var n := |post| - 1;
      assert (s + post)[|s| + n] == post[n] && (s + post)[..|s| + n] == s + post[..n];
      TrimRightBlank(s, post[..n]);
    }
  }

  /** Blanks around a text that is alike a printed one are trimmed away. */
  lemma TrimPadded(pre: string, t: string, s: string, post: string)
    requires Blank(pre) && Blank(post) && t != [] && Alike(t, s) && Printed(s)
    ensures Trim(pre + t + post) == Trim(t)
  {
    hide Digit, Norm;
    assert pre + t + post == pre + (t + post);
    TrimLeftBlank(pre, t + post);
    AlikeChar(t[0], s[0]);
    assert (t + post)[0] == t[0];
    TrimRightBlank(t, post);
  }

  /** Trimming takes away white space at the two ends, all of it and nothing else. */
  lemma TrimExactly(s: string) returns (pre: string, post: string)
    ensures Blank(pre) && Blank(post) && s == pre + Trim(s) + post
    ensures var t := Trim(s); t == [] || (!Blank([t[0]]) && !Blank([t[|t| - 1]]))
  {
    var left := TrimLeft(s);
    pre := TrimLeftCuts(s);
    post := TrimRightCuts(left);
    assert left == Trim(s) + post;
    assert s == pre + (Trim(s) + post);
    var t := Trim(s);
    if t != [] {
      assert t[0] == left[0];
      assert [t[0]][0] == t[0] && [t[|t| - 1]][0] == t[|t| - 1];
    }
  }

  lemma {:induction false} TrimLeftCuts(s: string) returns (pre: string)
    ensures Blank(pre) && s == pre + TrimLeft(s)
    ensures TrimLeft(s) != [] ==> !IsSpace(TrimLeft(s)[0])
  {
    pre := [];
    if s != [] && IsSpace(s[0]) {
      pre := TrimLeftCuts(s[1..]);
      assert s == [s[0]] + (pre + TrimLeft(s));
      pre := [s[0]] + pre;
    }
  }

  lemma {:induction false} TrimRightCuts(s: string) returns (post: string)
    ensures Blank(post) && s == TrimRight(s) + post
    ensures var t := TrimRight(s); t != [] ==> !IsSpace(t[|t| - 1])
  {
    post := [];
    if s != [] && IsSpace(s[|s| - 1]) {
      post := TrimRightCuts(s[..|s| - 1]);
      assert s == TrimRight(s) + post + [s[|s| - 1]];
      post := post + [s[|s| - 1]];
    }
  }

  /** The parts with dots in between. */
  function Glued(parts: seq<string>): string
    requires parts != []
  {
    if |parts| == 1 then parts[0] else parts[0] + ['.'] + Glued(parts[1..])
  }

  /** Splitting undoes gluing, and no part has a dot. */
  lemma {:induction false} SplitExactly(s: string)
    ensures Glued(Split(s)) == s
    ensures forall k :: 0 <= k < |Split(s)| ==> '.' !in Split(s)[k]
  {
    if s != [] {
      SplitExactly(s[1..]);
      var rest, parts := Split(s[1..]), Split(s);
      if s[0] == '.' {
        assert parts[1..] == rest;
        assert s == [] + ['.'] + s[1..];
      } else {
        assert s == [s[0]] + s[1..];
        if |rest| == 1 {
          assert parts == [[s[0]] + rest[0]];
        } else {
          assert parts[1..] == rest[1..];
          assert [s[0]] + (rest[0] + ['.'] + Glued(rest[1..])) == ([s[0]] + rest[0]) + ['.'] + Glued(rest[1..]);
        }
      }
    }
  }

  /** What the parsing loop makes of one part of a code. */
  function Part(part: string, checked: bool): Word {
    WordOf(Normalize(Trim(part)), checked)
  }

  /** The first `k` parts are numbers. */
  ghost predicate NumbersUpTo(parts: seq<string>, k: int, checked: bool)
    requires 0 <= k <= |parts|
  {
    forall i :: 0 <= i < k ==> Part(parts[i], checked).Number?
  }

  lemma NumbersFirst(parts: seq<string>, k: int, checked: bool)
    requires 0 < k <= |parts|
    ensures NumbersUpTo(parts, k, checked) <==>
            Part(parts[0], checked).Number? && NumbersUpTo(parts[1..], k - 1, checked)
  {
    hide Part;
    assert forall i :: 1 <= i < k ==> parts[i] == parts[1..][i - 1];
  }

  /** A list of numbers comes out exactly when every part is one, one value for each part. */
  lemma {:induction false} WordsExactly(parts: seq<string>, vals: seq<nat>, checked: bool)
    ensures WordsOf(parts, checked) == Numbers(vals) <==>
            |vals| == |parts| && forall i :: 0 <= i < |parts| ==> Part(parts[i], checked) == Number(vals[i])
  {
    hide Trim, Normalize, WordOf;
    if parts != [] && vals != [] {
      WordsExactly(parts[1..], vals[1..], checked);
      assert vals == [vals[0]] + vals[1..];
      assert forall i :: 1 <= i < |parts| ==> parts[i] == parts[1..][i - 1];
      assert forall i :: 1 <= i < |vals| ==> vals[i] == vals[1..][i - 1];
    }
  }

  /** The first part that is no number decides how a code is refused. */
  lemma {:induction false} FirstBadPart(parts: seq<string>, k: nat, checked: bool)
    requires k < |parts| && NumbersUpTo(parts, k, checked) && !Part(parts[k], checked).Number?
    ensures WordsOf(parts, checked) == if Part(parts[k], checked) == Invalid then Exit else Panic
  {
    hide Trim, Normalize, WordOf;
    if k != 0 {
      NumbersFirst(parts, k, checked);
      FirstBadPart(parts[1..], k - 1, checked);
    }
  }

  /**
   * Reading a code, exactly. Its parts between dots, each trimmed and normalised, must all be
   * numbers, and then those are the result; otherwise the program stops at the first that is none.
   */
  lemma FromStringExactly(s: string, vals: seq<nat>, checked: bool)
    ensures var parts := Split(Trim(s));
            && (FromString(s, checked) == Numbers(vals) <==>
                  |vals| == |parts| && forall i :: 0 <= i < |parts| ==> Part(parts[i], checked) == Number(vals[i]))
            && (forall k :: 0 <= k < |parts| && NumbersUpTo(parts, k, checked) && !Part(parts[k], checked).Number? ==>
                  FromString(s, checked) == if Part(parts[k], checked) == Invalid then Exit else Panic)
  {
    var parts := Split(Trim(s));
    WordsExactly(parts, vals, checked);
    hide Part, WordsOf, Split;
    forall k | 0 <= k < |parts| && NumbersUpTo(parts, k, checked) && !Part(parts[k], checked).Number?
      ensures WordsOf(parts, checked) == if Part(parts[k], checked) == Invalid then Exit else Panic
    {
      FirstBadPart(parts, k, checked);
    }
  }

  /**
   * The round trip. Any non-empty list of 32-bit numbers is read back from its code, also
   * when letters are typed in lower case, 1 is typed as I or L, and blanks are around it.
   */
  lemma RoundTrip(vals: seq<nat>, t: string, pre: string, post: string, checked: bool)
    requires vals != [] && AllU32(vals)
    requires Typed(Joined(vals), t) && Blank(pre) && Blank(post)
    ensures FromString(pre + t + post, checked) == Numbers(vals)
  {
    var s := Joined(vals);
    TypedIsAlike(s, t);
    JoinedIsPrinted(vals);
    EncodeIsParsed(vals[0], checked);
    assert s != [];
    TrimPadded(pre, t, s, post);
    TrimAlike(t, s);
    CodeAlike(vals, t, checked);
  }

  /** The empty list is the one exception: its code is empty and is read as the list of one zero. */
  lemma RoundTripExactly(vals: seq<nat>, checked: bool)
    requires AllU32(vals)
    ensures FromString(Joined(vals), checked) == Numbers(vals) <==> vals != []
  {
    hide Digit, Norm;
    if vals != [] {
      CodeAlike(vals, Joined(vals), checked);
    } else {
      assert Trim([]) == [] && Split([]) == [[]];
      EmptyVal(Normalize(Trim([])));
      assert WordsOf([[]], checked) == Numbers([0] + []);
    }
  }

  /** The code of a room is at most ten characters long. */
  lemma RoomCodeLength(roomId: nat, secret: nat)
    requires roomId < 1_048_576 && secret < 32768
    ensures |Joined([0, roomId, secret])| <= 10
  {
    Pows();
    DigitsLength(roomId, 4);
    DigitsLength(secret, 3);
    var vals := [0, roomId, secret];
    assert vals[1..] == [roomId, secret] && [roomId, secret][1..] == [secret];
    assert |Joined([secret])| <= 3 && |Joined([roomId, secret])| <= 8;
  }
}

/** Character-level reading of one line of an OBJ file, as the C and C++
    standard libraries do it for the loader: the whitespace class of C's
    `isspace`, formatted extraction of one whitespace-delimited word
    (`operator>>` into a std::string), and the digits an unsigned `%u`
    conversion of `sscanf` consumes. */
module Lex {

  datatype Option<+T> = None | Some(value: T)

  /** The characters `isspace` accepts in the "C" locale. */
  predicate IsSpace(c: char) {
    c == ' ' || c == '\t' || c == '\n' || c == '\U{000B}' || c == '\U{000C}' || c == '\r'
  }

  predicate IsDigit(c: char) {
    '0' <= c <= '9'
  }

  /** Drops the leading whitespace of `s`. */
  function SkipSpace(s: string): (r: string)
    ensures |r| <= |s|
  {
    if s != [] && IsSpace(s[0]) then SkipSpace(s[1..]) else s
  }

  /** `SkipSpace` drops whitespace, and only whitespace, from the front. */
  lemma {:induction false} SkipSpaceSpec(s: string)
    ensures var r := SkipSpace(s);
      && r == s[|s| - |r|..]
      && (forall i :: 0 <= i < |s| - |r| ==> IsSpace(s[i]))
      && (r == [] || !IsSpace(r[0]))
  {
    if s != [] && IsSpace(s[0]) {
      SkipSpaceSpec(s[1..]);
    }
  }

  /** Length of the longest prefix of `s` that holds no whitespace. */
  function WordLength(s: string): (n: nat)
    ensures n <= |s|
  {
    if s != [] && !IsSpace(s[0]) then 1 + WordLength(s[1..]) else 0
  }

  lemma {:induction false} WordLengthSpec(s: string)
    ensures var n := WordLength(s);
      && (forall i :: 0 <= i < n ==> !IsSpace(s[i]))
      && (n == |s| || IsSpace(s[n]))
  {
    if s != [] && !IsSpace(s[0]) {
      WordLengthSpec(s[1..]);
    }
  }

  /** `in >> word` with a std::string target: skip whitespace, then take the
      longest run of non-whitespace characters. Returns the word and the
      unread rest of the input; a blank input gives the empty word. */
  function ReadWord(s: string): (string, string) {
    var t := SkipSpace(s);
    var n := WordLength(t);
    (t[..n], t[n..])
  }

  /** The word and the rest split the input after its leading whitespace;
      the word holds no whitespace and is maximal; it is empty exactly when
      the input is blank. */
  lemma ReadWordSpec(s: string)
    ensures ReadWord(s).0 + ReadWord(s).1 == SkipSpace(s)
    ensures forall i :: 0 <= i < |ReadWord(s).0| ==> !IsSpace(ReadWord(s).0[i])
    ensures ReadWord(s).1 == [] || IsSpace(ReadWord(s).1[0])
    ensures ReadWord(s).0 == [] <==> forall i :: 0 <= i < |s| ==> IsSpace(s[i])
  {
    var t := SkipSpace(s);
    WordLengthSpec(t);
    assert t[..WordLength(t)] + t[WordLength(t)..] == t;
    ReadWordEmpty(s);
  }

  lemma ReadWordEmpty(s: string)
    ensures ReadWord(s).0 == [] <==> forall i :: 0 <= i < |s| ==> IsSpace(s[i])
  {
    var t := SkipSpace(s);
    SkipSpaceSpec(s);
    if t != [] {
      assert !IsSpace(s[|s| - |t|]);
      assert WordLength(t) > 0;
    }
  }

  /** Length of the longest prefix of `s` made of decimal digits. */
  function DigitRunLength(s: string): (n: nat)
    ensures n <= |s|
  {
    if s != [] && IsDigit(s[0]) then 1 + DigitRunLength(s[1..]) else 0
  }

  lemma {:induction false} DigitRunSpec(s: string)
    ensures var n := DigitRunLength(s);
      && (forall i :: 0 <= i < n ==> IsDigit(s[i]))
      && (n == |s| || !IsDigit(s[n]))
  {
    if s != [] && IsDigit(s[0]) {
      DigitRunSpec(s[1..]);
    }
  }

  predicate AllDigits(ds: string) {
    forall i :: 0 <= i < |ds| ==> IsDigit(ds[i])
  }

  /** The number a run of decimal digits denotes, most significant first. */
  function ValueOf(ds: string): nat
    requires AllDigits(ds)
  {
    if ds == [] then 0
    else ValueOf(ds[..|ds| - 1]) * 10 + ((ds[|ds| - 1] as int) - ('0' as int))
  }

  /** A `%u` conversion: skip whitespace, then read the longest run of
      decimal digits and return its value with the unread rest. `None` is
      the matching failure of an input that has no digit there. */
  function ReadUnsigned(s: string): Option<(nat, string)> {
    var t := SkipSpace(s);
    var n := DigitRunLength(t);
    if n == 0 then None
    else
      DigitRunSpec(t);
      Some((ValueOf(t[..n]), t[n..]))
  }

  /** A conversion succeeds exactly when a digit follows the whitespace. It
      then consumes the longest run of digits there, returns the value that
      run denotes, and leaves what follows it, which does not start with a
      digit. */
  lemma ReadUnsignedSpec(s: string)
    ensures var r := ReadUnsigned(s);
      && (r.Some? <==> SkipSpace(s) != [] && IsDigit(SkipSpace(s)[0]))
      && (r.Some? ==> |r.value.1| < |s| && (r.value.1 == [] || !IsDigit(r.value.1[0])))
      && (r.Some? ==>
            var t := SkipSpace(s);
            var k := |t| - |r.value.1|;
            && 0 < k
            && t[k..] == r.value.1
            && AllDigits(t[..k])
            && r.value.0 == ValueOf(t[..k]))
  {
    DigitRunSpec(SkipSpace(s));
  }

  function DigitChar(d: nat): (c: char)
    requires d < 10
    ensures IsDigit(c) && (c as int) - ('0' as int) == d
  {
    (('0' as int) + d) as char
  }

  /** The decimal numeral of `n`, without leading zeros: the text a
      well-formed face line holds for an index. */
  function Decimal(n: nat): (ds: string)
    ensures ds != [] && AllDigits(ds)
    ensures ValueOf(ds) == n
  {
    if n < 10 then [DigitChar(n)]
    else
      var ds := Decimal(n / 10) + [DigitChar(n % 10)];
      assert ds[..|ds| - 1] == Decimal(n / 10);
      ds
  }

  /** The digits of a run end where the next character is not a digit. */
  lemma {:induction false} DigitRunOfConcat(ds: string, rest: string)
    requires AllDigits(ds)
    requires rest == [] || !IsDigit(rest[0])
    ensures DigitRunLength(ds + rest) == |ds|
    decreases |ds|
  {
    if ds != [] {
      assert (ds + rest)[1..] == ds[1..] + rest;
      DigitRunOfConcat(ds[1..], rest);
    } else {
      assert ds + rest == rest;
    }
  }

  /** `%u` reads back exactly the numeral `Decimal` writes, when a non-digit
      (or the end of the line) follows it. */
  lemma ReadDecimal(n: nat, rest: string)
    requires rest == [] || !IsDigit(rest[0])
    ensures ReadUnsigned(Decimal(n) + rest) == Some((n, rest))
  {
    var s := Decimal(n) + rest;
    assert !IsSpace(s[0]);
    assert SkipSpace(s) == s;
    DigitRunOfConcat(Decimal(n), rest);
    assert s[..|Decimal(n)|] == Decimal(n);
    assert s[|Decimal(n)|..] == rest;
  }

  /** A word as `>>` reads it: non-empty, without whitespace. */
  predicate IsWord(w: string) {
    w != [] && forall i :: 0 <= i < |w| ==> !IsSpace(w[i])
  }

  lemma {:induction false} WordLengthOfWord(w: string, rest: string)
    requires forall i :: 0 <= i < |w| ==> !IsSpace(w[i])
    requires rest == [] || IsSpace(rest[0])
    ensures WordLength(w + rest) == |w|
    decreases |w|
  {
    if w == [] {
      assert w + rest == rest;
    } else {
      assert (w + rest)[1..] == w[1..] + rest;
      WordLengthOfWord(w[1..], rest);
    }
  }

  /** A word followed by whitespace or by the end of the line is read back
      whole, with or without a blank in front of it. */
  lemma ReadWordOf(w: string, rest: string)
    requires IsWord(w) && (rest == [] || IsSpace(rest[0]))
    ensures ReadWord(w + rest) == (w, rest)
    ensures ReadWord(" " + w + rest) == (w, rest)
  {
    var s := w + rest;
    assert s[0] == w[0];
    assert SkipSpace(s) == s;
    assert (" " + w + rest)[1..] == s;
    assert SkipSpace(" " + w + rest) == s;
    WordLengthOfWord(w, rest);
    assert s[..|w|] == w && s[|w|..] == rest;
  }
}

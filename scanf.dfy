/** The part of C's `sscanf` the face reader relies on: a format made of
    whitespace directives, ordinary characters and `%u` conversions, read
    against one line. Conversions are stored in order; the first directive
    that fails (a mismatch, or the end of the input) stops the scan and
    leaves every later target untouched. */
module Scanf {
  import opened Lex

  datatype Directive =
    | Blank            // a run of whitespace in the format: skips any whitespace, possibly none
    | Literal(c: char) // an ordinary character: must be the next input character
    | Unsigned         // `%u`

  /** Splits a format string into directives, one per whitespace
      character (consecutive whitespace directives skip what one would).
      Only `%u` conversions are recognised, which is all the loader's
      format uses. */
  function ParseFormat(fmt: string): seq<Directive> {
    if fmt == [] then []
    else if IsSpace(fmt[0]) then [Blank] + ParseFormat(fmt[1..])
    else if |fmt| >= 2 && fmt[0] == '%' && fmt[1] == 'u' then [Unsigned] + ParseFormat(fmt[2..])
    else [Literal(fmt[0])] + ParseFormat(fmt[1..])
  }

  /** Number of conversions in a format: how many targets it can store. */
  function Conversions(fmt: seq<Directive>): nat {
    if fmt == [] then 0
    else (if fmt[0] == Unsigned then 1 else 0) + Conversions(fmt[1..])
  }

  /** The values `sscanf(input, fmt, ...)` stores, in target order. Fewer
      than `Conversions(fmt)` values means the scan stopped early and the
      remaining targets keep what they held. */
  function Scan(fmt: seq<Directive>, input: string): (vals: seq<nat>)
    ensures |vals| <= Conversions(fmt)
  {
    if fmt == [] then []
    else match fmt[0]
      case Blank => Scan(fmt[1..], SkipSpace(input))
      case Literal(c) =>
        if input != [] && input[0] == c then Scan(fmt[1..], input[1..]) else []
      case Unsigned =>
        match ReadUnsigned(input)
        case None => []
        case Some((n, rest)) => [n] + Scan(fmt[1..], rest)
  }

  /** Splitting a format splits the count of its conversions. */
  lemma {:induction false} ConversionsConcat(a: seq<Directive>, b: seq<Directive>)
    ensures Conversions(a + b) == Conversions(a) + Conversions(b)
    decreases |a|
  {
    if a == [] {
      assert a + b == b;
    } else {
      assert (a + b)[1..] == a[1..] + b;
      ConversionsConcat(a[1..], b);
    }
  }

  /** Parsing a format piece by piece gives the same directives, unless the
      cut falls inside a `%u`. */
  lemma {:induction false} ParseFormatConcat(a: string, b: string)
    requires a == [] || a[|a| - 1] != '%'
    ensures ParseFormat(a + b) == ParseFormat(a) + ParseFormat(b)
    decreases |a|
  {
    if a == [] {
      assert a + b == b;
    } else if IsSpace(a[0]) || !(|a| >= 2 && a[0] == '%' && a[1] == 'u') {
      assert (a + b)[1..] == a[1..] + b;
      ParseFormatConcat(a[1..], b);
    } else {
      assert (a + b)[2..] == a[2..] + b;
      ParseFormatConcat(a[2..], b);
    }
  }

  /** One corner of a face line, " %u/%u/%u": whitespace, then the
      position, texture-coordinate and normal indices. */
  const CornerFormat: seq<Directive> :=
    [Blank, Unsigned, Literal('/'), Unsigned, Literal('/'), Unsigned]

  /** The format of the face reader: the tag `f`, then three corners. */
  const FaceFormat: seq<Directive> := [Literal('f')] + CornerFormat + CornerFormat + CornerFormat

  /** `FaceFormat` is what the format string "f %u/%u/%u %u/%u/%u %u/%u/%u"
      parses to, and it has nine conversions. */
  lemma FaceFormatText()
    ensures ParseFormat("f %u/%u/%u %u/%u/%u %u/%u/%u") == FaceFormat
    ensures Conversions(FaceFormat) == 9
  {
    FaceFormatParses();
    FaceFormatConversions();
  }

  /** The face format stores at most nine values. */
  lemma FaceFormatConversions()
    ensures Conversions(FaceFormat) == 9
  {
    assert Conversions(CornerFormat) == 3;
    ConversionsConcat([Literal('f')], CornerFormat);
    ConversionsConcat([Literal('f')] + CornerFormat, CornerFormat);
    ConversionsConcat([Literal('f')] + CornerFormat + CornerFormat, CornerFormat);
  }

  lemma FaceFormatParses()
    ensures ParseFormat("f %u/%u/%u %u/%u/%u %u/%u/%u") == FaceFormat
  {
    var corner := " %u/%u/%u";
    FaceFormatString();
    CornerFormatParses();
    ParseFormatCons('f', []);
    ParseFormatConcat("f", corner);
    ParseFormatConcat("f" + corner, corner);
    ParseFormatConcat("f" + corner + corner, corner);
  }

  lemma FaceFormatString()
    ensures "f %u/%u/%u %u/%u/%u %u/%u/%u" == "f" + " %u/%u/%u" + " %u/%u/%u" + " %u/%u/%u"
  {
    assert " %u/%u/%u %u/%u/%u" == " %u/%u/%u" + " %u/%u/%u";
    assert " %u/%u/%u %u/%u/%u %u/%u/%u" == " %u/%u/%u %u/%u/%u" + " %u/%u/%u";
    assert "f %u/%u/%u %u/%u/%u %u/%u/%u" == "f" + " %u/%u/%u %u/%u/%u %u/%u/%u";
  }

  lemma CornerFormatParses()
    ensures ParseFormat(" %u/%u/%u") == CornerFormat
  {
    assert "%u" + [] == "%u";
    assert "/%u" == "/" + "%u";
    assert "%u/%u" == "%u" + "/%u";
    assert "/%u/%u" == "/" + "%u/%u";
    assert "%u/%u/%u" == "%u" + "/%u/%u";
    assert " %u/%u/%u" == " " + "%u/%u/%u";
    ParseFormatPercentU([]);
    ParseFormatCons('/', "%u");
    ParseFormatPercentU("/%u");
    ParseFormatCons('/', "%u/%u");
    ParseFormatPercentU("/%u/%u");
    ParseFormatCons(' ', "%u/%u/%u");
  }

  /** Parsing a format whose first character is known. */
  lemma ParseFormatCons(c: char, rest: string)
    requires c != '%'
    ensures IsSpace(c) ==> ParseFormat([c] + rest) == [Blank] + ParseFormat(rest)
    ensures !IsSpace(c) ==> ParseFormat([c] + rest) == [Literal(c)] + ParseFormat(rest)
  {
    assert ([c] + rest)[0] == c && ([c] + rest)[1..] == rest;
  }

  lemma ParseFormatPercentU(rest: string)
    ensures ParseFormat("%u" + rest) == [Unsigned] + ParseFormat(rest)
  {
    var s := "%u" + rest;
    assert s[0] == '%' && s[1] == 'u' && s[2..] == rest;
  }

  /** Two neighbouring directives that text written for them cannot blur:
      a number is not followed by a digit, and a whitespace directive is not
      followed by more whitespace. */
  predicate Separated(d: Directive, next: Directive) {
    && (d == Unsigned ==> next != Unsigned && !(next.Literal? && IsDigit(next.c)))
    && (d == Blank ==> next != Blank && !(next.Literal? && IsSpace(next.c)))
  }

  predicate WellSeparated(fmt: seq<Directive>) {
    forall i :: 0 <= i < |fmt| - 1 ==> Separated(fmt[i], fmt[i + 1])
  }

  lemma WellSeparatedConcat(a: seq<Directive>, b: seq<Directive>)
    requires WellSeparated(a) && WellSeparated(b)
    requires a != [] && b != [] ==> Separated(a[|a| - 1], b[0])
    ensures WellSeparated(a + b)
  {
    var ab := a + b;
    forall i | 0 <= i < |ab| - 1 ensures Separated(ab[i], ab[i + 1]) {
      if i + 1 < |a| {
        assert ab[i] == a[i] && ab[i + 1] == a[i + 1];
      } else if i + 1 == |a| {
        assert ab[i] == a[|a| - 1] && ab[i + 1] == b[0];
      } else {
        assert ab[i] == b[i - |a|] && ab[i + 1] == b[i - |a| + 1];
      }
    }
  }

  lemma FaceFormatWellSeparated()
    ensures WellSeparated(FaceFormat)
  {
    assert WellSeparated(CornerFormat);
    WellSeparatedConcat([Literal('f')], CornerFormat);
    WellSeparatedConcat([Literal('f')] + CornerFormat, CornerFormat);
    WellSeparatedConcat([Literal('f')] + CornerFormat + CornerFormat, CornerFormat);
  }

  /** The text a format describes when each conversion is the decimal
      numeral of the matching value: a well-formed input line. (A
      conversion left without a value is written as 0.) */
  function Render(fmt: seq<Directive>, vals: seq<nat>): string {
    if fmt == [] then []
    else match fmt[0]
      case Blank => " " + Render(fmt[1..], vals)
      case Literal(c) => [c] + Render(fmt[1..], vals)
      case Unsigned =>
        if vals == [] then Decimal(0) + Render(fmt[1..], [])
        else Decimal(vals[0]) + Render(fmt[1..], vals[1..])
  }

  /** The first character of rendered text is fixed by the first directive. */
  lemma RenderFirst(fmt: seq<Directive>, vals: seq<nat>)
    requires fmt != []
    ensures var s := Render(fmt, vals);
      && s != []
      && (fmt[0] == Blank ==> s[0] == ' ')
      && (fmt[0].Literal? ==> s[0] == fmt[0].c)
      && (fmt[0] == Unsigned ==> IsDigit(s[0]))
  {
  }

  /** Scanning text rendered from a well-separated format stores every value
      that was written, in order. */
  lemma {:induction false} ScanRender(fmt: seq<Directive>, vals: seq<nat>)
    requires WellSeparated(fmt) && |vals| == Conversions(fmt)
    ensures Scan(fmt, Render(fmt, vals)) == vals
  {
    if fmt != [] {
      var rest := fmt[1..];
      assert WellSeparated(rest) by {
        forall i | 0 <= i < |rest| - 1 ensures Separated(rest[i], rest[i + 1]) {
          assert rest[i] == fmt[i + 1] && rest[i + 1] == fmt[i + 2];
        }
      }
      if rest != [] {
        assert Separated(fmt[0], rest[0]);
        RenderFirst(rest, if fmt[0] == Unsigned then vals[1..] else vals);
      }
      match fmt[0]
      case Blank =>
        ScanRender(rest, vals);
        ScanRenderBlank(fmt, vals);
      case Literal(_) =>
        ScanRender(rest, vals);
        ScanRenderLiteral(fmt, vals);
      case Unsigned =>
        ScanRender(rest, vals[1..]);
        ScanRenderUnsigned(fmt, vals);
    }
  }

  lemma ScanRenderBlank(fmt: seq<Directive>, vals: seq<nat>)
    requires fmt != [] && fmt[0] == Blank
    requires var r := Render(fmt[1..], vals); r == [] || !IsSpace(r[0])
    requires Scan(fmt[1..], Render(fmt[1..], vals)) == vals
    ensures Scan(fmt, Render(fmt, vals)) == vals
  {
    var r := Render(fmt[1..], vals);
    assert Render(fmt, vals) == " " + r;
    assert (" " + r)[1..] == r;
    assert SkipSpace(" " + r) == SkipSpace(r) == r;
  }

  lemma ScanRenderLiteral(fmt: seq<Directive>, vals: seq<nat>)
    requires fmt != [] && fmt[0].Literal?
    requires Scan(fmt[1..], Render(fmt[1..], vals)) == vals
    ensures Scan(fmt, Render(fmt, vals)) == vals
  {
    var r := Render(fmt[1..], vals);
    assert Render(fmt, vals) == [fmt[0].c] + r;
    assert ([fmt[0].c] + r)[1..] == r;
  }

  lemma ScanRenderUnsigned(fmt: seq<Directive>, vals: seq<nat>)
    requires fmt != [] && fmt[0] == Unsigned && vals != []
    requires var r := Render(fmt[1..], vals[1..]); r == [] || !IsDigit(r[0])
    requires Scan(fmt[1..], Render(fmt[1..], vals[1..])) == vals[1..]
    ensures Scan(fmt, Render(fmt, vals)) == vals
  {
    var r := Render(fmt[1..], vals[1..]);
    assert Render(fmt, vals) == Decimal(vals[0]) + r;
    ReadDecimal(vals[0], r);
    ScanUnsignedStep(fmt, Decimal(vals[0]) + r, vals[0], r);
    assert vals == [vals[0]] + vals[1..];
  }

  /** A successful conversion stores its value and scanning goes on after
      its digits. */
  lemma ScanUnsignedStep(fmt: seq<Directive>, input: string, n: nat, rest: string)
    requires fmt != [] && fmt[0] == Unsigned
    requires ReadUnsigned(input) == Some((n, rest))
    ensures Scan(fmt, input) == [n] + Scan(fmt[1..], rest)
  {
  }

  /** A line whose first character is not the literal `f` of the face
      format (an indented face line, say) stores nothing. */
  lemma FaceScanNeedsLeadingTag(line: string)
    requires line == [] || line[0] != 'f'
    ensures Scan(FaceFormat, line) == []
  {
  }

  /** Rendering a format piece by piece: the first piece takes as many
      values as it has conversions. */
  lemma {:induction false} RenderConcat(a: seq<Directive>, b: seq<Directive>, va: seq<nat>, vb: seq<nat>)
    requires |va| == Conversions(a)
    ensures Render(a + b, va + vb) == Render(a, va) + Render(b, vb)
    decreases |a|
  {
    if a == [] {
      assert a + b == b && va + vb == vb;
    } else {
      var d, tail := a[0], a[1..];
      assert a == [d] + tail && a + b == [d] + (tail + b);
      if d == Unsigned {
        assert (va + vb)[0] == va[0] && (va + vb)[1..] == va[1..] + vb;
        RenderConcat(tail, b, va[1..], vb);
        RenderCons(d, tail + b, va + vb);
        RenderCons(d, tail, va);
      } else {
        RenderConcat(tail, b, va, vb);
        RenderCons(d, tail + b, va + vb);
        RenderCons(d, tail, va);
      }
    }
  }

  /** Rendering a format whose first directive is known. */
  lemma RenderCons(d: Directive, rest: seq<Directive>, vals: seq<nat>)
    ensures d == Blank ==> Render([d] + rest, vals) == " " + Render(rest, vals)
    ensures d.Literal? ==> Render([d] + rest, vals) == [d.c] + Render(rest, vals)
    ensures d == Unsigned && vals != [] ==> Render([d] + rest, vals) == Decimal(vals[0]) + Render(rest, vals[1..])
  {
    assert ([d] + rest)[0] == d && ([d] + rest)[1..] == rest;
  }

  /** The text of one corner of a well-formed face line, " a/b/c". */
  function CornerText(a: nat, b: nat, c: nat): string {
    " " + Decimal(a) + "/" + Decimal(b) + "/" + Decimal(c)
  }

  /** The corner format renders as the corner text. */
  lemma CornerRender(a: nat, b: nat, c: nat)
    ensures Render(CornerFormat, [a, b, c]) == CornerText(a, b, c)
  {
    var f2: seq<Directive> := [Literal('/'), Unsigned, Literal('/'), Unsigned];
    var f1 := [Unsigned] + f2;
    assert CornerFormat == [Blank] + f1;
    CornerRenderTail(b, c);
    assert [a, b, c][1..] == [b, c];
    RenderCons(Unsigned, f2, [a, b, c]);
    RenderCons(Blank, f1, [a, b, c]);
  }

  lemma CornerRenderTail(b: nat, c: nat)
    ensures Render([Literal('/'), Unsigned, Literal('/'), Unsigned], [b, c]) == "/" + Decimal(b) + "/" + Decimal(c)
  {
    var f5: seq<Directive> := [Unsigned];
    var f4 := [Literal('/')] + f5;
    var f3 := [Unsigned] + f4;
    assert [Literal('/'), Unsigned, Literal('/'), Unsigned] == [Literal('/')] + f3;
    assert f5 == [Unsigned] + [] && [c][1..] == [];
    RenderCons(Unsigned, [], [c]);
    RenderCons(Literal('/'), f5, [c]);
    assert [b, c][1..] == [c];
    RenderCons(Unsigned, f4, [b, c]);
    RenderCons(Literal('/'), f3, [b, c]);
  }
}

/**
 * Requoting of string and directive literals in the TypeScript tree walker
 * (`parseStringOrDirectiveLiteral`): the literal's raw body is re-emitted
 * between the configured quote character as a raw string.
 *
 * Two definitions live here. `RequoteAsWritten` follows the walker's two
 * regular-expression replacements literally; they are not escape-aware, and
 * `AsWrittenBreaksEscapedQuote` exhibits a body for which the result ends
 * the literal early. `RequoteStringLiteral` is the corrected, escape-aware
 * definition, which the rest of the model uses.
 */
module StringLiterals {
  import opened PrintItems

  /**
   * JavaScript's `s.replace(/pat/g, rep)` for a pattern without regular
   * expression metacharacters: leftmost, non-overlapping occurrences.
   */
  function ReplaceAll(s: string, pat: string, rep: string): string
    requires |pat| > 0
    decreases |s|
  {
    if |s| < |pat| then s
    else if s[..|pat|] == pat then rep + ReplaceAll(s[|pat|..], pat, rep)
    else [s[0]] + ReplaceAll(s[1..], pat, rep)
  }

  /** When some character of the pattern never occurs in `s`, nothing is replaced. */
  lemma {:induction false} ReplaceAllNoMatch(s: string, pat: string, rep: string, k: nat)
    requires |pat| > 0 && k < |pat|
    requires forall i :: 0 <= i < |s| ==> s[i] != pat[k]
    ensures ReplaceAll(s, pat, rep) == s
    decreases |s|
  {
    if |s| >= |pat| {
      assert s[..|pat|][k] == s[k];
      assert s[..|pat|] != pat;
      assert forall i :: 0 <= i < |s[1..]| ==> s[1..][i] == s[i + 1];
      ReplaceAllNoMatch(s[1..], pat, rep, k);
      assert s == [s[0]] + s[1..];
    }
  }

  /** The configured quote character. */
  function Quote(singleQuotes: bool): char {
    if singleQuotes then '\'' else '"'
  }

  /** The quote character the literal was written with in the source file. */
  function SourceQuote(sourceIsDouble: bool): char {
    if sourceIsDouble then '"' else '\''
  }

  // ---------------------------------------------------------------------
  // The walker's definition, as written

  /** `getStringValue`: drops the backslash from every `\` + source-quote pair. */
  function StringValueAsWritten(body: string, sourceIsDouble: bool): string {
    var q := SourceQuote(sourceIsDouble);
    ReplaceAll(body, ['\\', q], [q])
  }

  /** `getStringLiteralText`: puts a backslash before every configured quote. */
  function RequoteAsWritten(body: string, sourceIsDouble: bool, singleQuotes: bool): string {
    var q := Quote(singleQuotes);
    [q] + ReplaceAll(StringValueAsWritten(body, sourceIsDouble), [q], ['\\', q]) + [q]
  }

  /** Every `q` in `s` comes right after a backslash. */
  ghost predicate QuotesEscaped(s: string, q: char) {
    forall i :: 0 <= i < |s| && s[i] == q ==> i > 0 && s[i - 1] == '\\'
  }

  /** Prepending text that ends neither in a bare `q` nor before one keeps quotes escaped. */
  lemma EscapedPrefix(head: string, rest: string, q: char)
    requires QuotesEscaped(head, q) && QuotesEscaped(rest, q)
    requires |rest| > 0 && rest[0] == q ==> |head| > 0 && head[|head| - 1] == '\\'
    ensures QuotesEscaped(head + rest, q)
  {
    var s := head + rest;
    forall i | 0 <= i < |s| && s[i] == q ensures i > 0 && s[i - 1] == '\\' {
      if i >= |head| {
        assert s[i] == rest[i - |head|];
        if i > |head| { assert s[i - 1] == rest[i - 1 - |head|]; }
      } else {
        assert s[i] == head[i];
        if i > 0 { assert s[i - 1] == head[i - 1]; }
      }
    }
  }

  /** Escaping `q` leaves every `q` right after a backslash. */
  lemma {:induction false} EscapedQuotesFollowBackslash(s: string, q: char)
    requires q != '\\'
    ensures QuotesEscaped(ReplaceAll(s, [q], ['\\', q]), q)
    decreases |s|
  {
    if |s| >= 1 {
      var rest := ReplaceAll(s[1..], [q], ['\\', q]);
      EscapedQuotesFollowBackslash(s[1..], q);
      if s[..1] == [q] {
        EscapedPrefix(['\\', q], rest, q);
      } else {
        assert s[0] != q by { assert s[..1][0] == s[0]; }
        assert rest == ReplaceAll(s[1..], [q], ['\\', q]);
        assert |rest| > 0 ==> rest[0] != q;
        EscapedPrefix([s[0]], rest, q);
      }
    }
  }

  /**
   * The walker's result is quoted with the configured quote, every quote
   * inside is preceded by a backslash, and a body with neither quote
   * character is copied verbatim.
   */
  lemma RequoteAsWrittenShape(body: string, sourceIsDouble: bool, singleQuotes: bool)
    ensures var r := RequoteAsWritten(body, sourceIsDouble, singleQuotes);
      && |r| >= 2 && r[0] == Quote(singleQuotes) && r[|r| - 1] == Quote(singleQuotes)
      && QuotesEscaped(r[1..|r| - 1], Quote(singleQuotes))
      && ((forall i :: 0 <= i < |body| ==> body[i] != '"' && body[i] != '\'') ==> r == [Quote(singleQuotes)] + body + [Quote(singleQuotes)])
  {
    var q := Quote(singleQuotes);
    var sq := SourceQuote(sourceIsDouble);
    var v := StringValueAsWritten(body, sourceIsDouble);
    var escaped := ReplaceAll(v, [q], ['\\', q]);
    var r := RequoteAsWritten(body, sourceIsDouble, singleQuotes);
    assert r == [q] + escaped + [q];
    assert r[1..|r| - 1] == escaped;
    EscapedQuotesFollowBackslash(v, q);
    if forall i :: 0 <= i < |body| ==> body[i] != '"' && body[i] != '\'' {
      ReplaceAllNoMatch(body, ['\\', sq], [sq], 1);
      assert v == body;
      ReplaceAllNoMatch(v, [q], ['\\', q], 0);
      assert escaped == body;
    }
  }

  // ---------------------------------------------------------------------
  // Escape-aware reading of a literal body

  /** One lexical unit of a literal body: a character, or a backslash escape. */
  datatype Unit = Plain(c: char) | Escaped(c: char)

  /** Splits a body into units, left to right; a lone trailing backslash stays plain. */
  function Scan(s: string): seq<Unit>
    decreases |s|
  {
    if |s| == 0 then []
    else if s[0] == '\\' && |s| >= 2 then [Escaped(s[1])] + Scan(s[2..])
    else [Plain(s[0])] + Scan(s[1..])
  }

  function RenderUnit(u: Unit): string {
    match u
    case Plain(c) => [c]
    case Escaped(c) => ['\\', c]
  }

  /** Writes units back out as text. */
  function Render(units: seq<Unit>): string {
    if |units| == 0 then "" else RenderUnit(units[0]) + Render(units[1..])
  }

  /** A plain backslash can only be the last unit, as `Scan` produces it. */
  ghost predicate Canonical(units: seq<Unit>) {
    forall i :: 0 <= i < |units| - 1 ==> units[i] != Plain('\\')
  }

  lemma {:induction false} RenderScan(s: string)
    ensures Render(Scan(s)) == s
    decreases |s|
  {
    if |s| > 0 {
      if s[0] == '\\' && |s| >= 2 {
        RenderScan(s[2..]);
        assert Scan(s)[1..] == Scan(s[2..]);
        assert s == s[..2] + s[2..];
      } else {
        RenderScan(s[1..]);
        assert Scan(s)[1..] == Scan(s[1..]);
        assert s == [s[0]] + s[1..];
      }
    }
  }

  lemma {:induction false} ScanCanonical(s: string)
    ensures Canonical(Scan(s))
    decreases |s|
  {
    if |s| > 0 {
      var u := Scan(s);
      if s[0] == '\\' && |s| >= 2 {
        ScanCanonical(s[2..]);
        assert forall i :: 1 <= i < |u| ==> u[i] == Scan(s[2..])[i - 1];
      } else {
        ScanCanonical(s[1..]);
        assert forall i :: 1 <= i < |u| ==> u[i] == Scan(s[1..])[i - 1];
        assert |s| == 1 ==> |u| == 1;
      }
    }
  }

  lemma {:induction false} ScanRender(units: seq<Unit>)
    requires Canonical(units)
    ensures Scan(Render(units)) == units
    decreases |units|
  {
    if |units| > 0 {
      var rest := units[1..];
      assert Canonical(rest) by {
        forall i | 0 <= i < |rest| - 1 ensures rest[i] != Plain('\\') {
          assert rest[i] == units[i + 1];
        }
      }
      ScanRender(rest);
      var s := Render(units);
      assert s == RenderUnit(units[0]) + Render(rest);
      match units[0]
      case Escaped(c) => {
        assert s[0] == '\\' && s[1] == c && s[2..] == Render(rest);
      }
      case Plain(c) => {
        assert s[1..] == Render(rest);
        if c == '\\' {
          assert |units| == 1;
          assert Render(rest) == "";
        }
      }
    }
  }

  // ---------------------------------------------------------------------
  // The corrected requoting

  /**
   * Requotes one unit for target quote `q`: a bare `q` gets escaped, an
   * escaped source quote loses its now needless backslash when the target
   * quote differs, and every other unit (escapes included) is kept.
   */
  function RequoteUnit(u: Unit, sourceQuote: char, q: char): Unit {
    match u
    case Plain(c) => if c == q then Escaped(c) else Plain(c)
    case Escaped(c) => if c == sourceQuote && c != q then Plain(c) else Escaped(c)
  }

  function RequoteUnits(units: seq<Unit>, sourceQuote: char, q: char): (r: seq<Unit>)
    ensures |r| == |units|
    ensures forall i :: 0 <= i < |r| ==> r[i] == RequoteUnit(units[i], sourceQuote, q)
  {
    if |units| == 0 then []
    else [RequoteUnit(units[0], sourceQuote, q)] + RequoteUnits(units[1..], sourceQuote, q)
  }

  /**
   * `parseStringOrDirectiveLiteral`, escape-aware: the body re-emitted
   * between configured quotes with exactly the quote escapes it needs.
   */
  function RequoteStringLiteral(body: string, sourceIsDouble: bool, singleQuotes: bool): (r: string)
    ensures |r| >= 2 && r[0] == Quote(singleQuotes) && r[|r| - 1] == Quote(singleQuotes)
  {
    var q := Quote(singleQuotes);
    [q] + Render(RequoteUnits(Scan(body), SourceQuote(sourceIsDouble), q)) + [q]
  }


  /**
   * The body of a literal quoted with `q` is well formed when, read escape
   * by escape, it holds no bare `q` that would end the literal early.
   */
  ghost predicate WellQuoted(literal: string, q: char) {
    && |literal| >= 2 && literal[0] == q && literal[|literal| - 1] == q
    && NoBareQuote(Scan(literal[1..|literal| - 1]), q)
  }

  /** No unit is a bare `q`. */
  ghost predicate NoBareQuote(units: seq<Unit>, q: char) {
    forall i :: 0 <= i < |units| ==> units[i] != Plain(q)
  }

  /** What a unit denotes inside a literal: an escaped quote is just that quote. */
  function Denote(u: Unit): Unit {
    if u.Escaped? && (u.c == '"' || u.c == '\'') then Plain(u.c) else u
  }

  /** Units `a` and `b` denote the same string value. */
  ghost predicate SameValue(a: seq<Unit>, b: seq<Unit>) {
    |a| == |b| && forall i :: 0 <= i < |a| ==> Denote(a[i]) == Denote(b[i])
  }

  lemma RequoteUnitsCanonical(units: seq<Unit>, sourceQuote: char, q: char)
    requires Canonical(units)
    requires q != '\\' && sourceQuote != '\\'
    ensures Canonical(RequoteUnits(units, sourceQuote, q))
  {
    var r := RequoteUnits(units, sourceQuote, q);
    forall i | 0 <= i < |r| - 1 ensures r[i] != Plain('\\') {
      assert units[i] != Plain('\\');
    }
  }

  /** The units of the requoted body are exactly the requoted units of the body. */
  lemma RequotedBody(body: string, sourceIsDouble: bool, singleQuotes: bool)
    ensures var r := RequoteStringLiteral(body, sourceIsDouble, singleQuotes);
      Scan(r[1..|r| - 1]) == RequoteUnits(Scan(body), SourceQuote(sourceIsDouble), Quote(singleQuotes))
  {
    var q := Quote(singleQuotes);
    var units := RequoteUnits(Scan(body), SourceQuote(sourceIsDouble), q);
    var r := RequoteStringLiteral(body, sourceIsDouble, singleQuotes);
    assert r[1..|r| - 1] == Render(units);
    ScanCanonical(body);
    RequoteUnitsCanonical(Scan(body), SourceQuote(sourceIsDouble), q);
    ScanRender(units);
  }

  /**
   * The corrected requoting always yields a well-formed literal in the
   * configured quote, and it keeps the string's value: read escape by
   * escape, the new body denotes what the old body denoted.
   */
  lemma RequoteStringLiteralCorrect(body: string, sourceIsDouble: bool, singleQuotes: bool)
    ensures WellQuoted(RequoteStringLiteral(body, sourceIsDouble, singleQuotes), Quote(singleQuotes))
    ensures var r := RequoteStringLiteral(body, sourceIsDouble, singleQuotes);
      SameValue(Scan(r[1..|r| - 1]), Scan(body))
  {
    RequotedBody(body, sourceIsDouble, singleQuotes);
  }

  /** Every configured quote inside the corrected result comes right after a backslash. */
  lemma RequoteStringLiteralEscapesQuotes(body: string, sourceIsDouble: bool, singleQuotes: bool)
    ensures var r := RequoteStringLiteral(body, sourceIsDouble, singleQuotes);
      QuotesEscaped(r[1..|r| - 1], Quote(singleQuotes))
  {
    var q := Quote(singleQuotes);
    var units := RequoteUnits(Scan(body), SourceQuote(sourceIsDouble), q);
    var r := RequoteStringLiteral(body, sourceIsDouble, singleQuotes);
    assert r[1..|r| - 1] == Render(units);
    RenderNoBareQuote(units, q);
  }

  lemma {:induction false} RenderNoBareQuote(units: seq<Unit>, q: char)
    requires q != '\\'
    requires NoBareQuote(units, q)
    ensures QuotesEscaped(Render(units), q)
  {
    if |units| > 0 {
      var rest := Render(units[1..]);
      var head := RenderUnit(units[0]);
      assert Render(units) == head + rest;
      assert NoBareQuote(units[1..], q) by {
        forall i | 0 <= i < |units[1..]| ensures units[1..][i] != Plain(q) {
          assert units[1..][i] == units[i + 1];
        }
      }
      RenderNoBareQuote(units[1..], q);
      assert |rest| > 0 ==> rest[0] != q;
      EscapedPrefix(head, rest, q);
    }
  }

  /** A body with neither quote character is copied verbatim. */
  lemma RequoteStringLiteralVerbatim(body: string, sourceIsDouble: bool, singleQuotes: bool)
    requires forall i :: 0 <= i < |body| ==> body[i] != '"' && body[i] != '\''
    ensures RequoteStringLiteral(body, sourceIsDouble, singleQuotes) == [Quote(singleQuotes)] + body + [Quote(singleQuotes)]
  {
    var units := Scan(body);
    RenderScan(body);
    NoQuoteUnits(body);
    var q := Quote(singleQuotes);
    var r := RequoteUnits(units, SourceQuote(sourceIsDouble), q);
    assert forall i :: 0 <= i < |r| ==> r[i] == units[i];
    assert r == units;
  }

  lemma {:induction false} NoQuoteUnits(s: string)
    requires forall i :: 0 <= i < |s| ==> s[i] != '"' && s[i] != '\''
    ensures forall i :: 0 <= i < |Scan(s)| ==> Scan(s)[i].c != '"' && Scan(s)[i].c != '\''
    decreases |s|
  {
    if |s| > 0 {
      var u := Scan(s);
      if s[0] == '\\' && |s| >= 2 {
        NoQuoteUnits(s[2..]);
        assert forall i :: 1 <= i < |u| ==> u[i] == Scan(s[2..])[i - 1];
      } else {
        NoQuoteUnits(s[1..]);
        assert forall i :: 1 <= i < |u| ==> u[i] == Scan(s[1..])[i - 1];
      }
    }
  }

  /**
   * Where the walker's replacements cannot go wrong, on bodies without any
   * backslash, the corrected definition agrees with them.
   */
  lemma RequoteAgreesWithoutBackslashes(body: string, sourceIsDouble: bool, singleQuotes: bool)
    requires forall i :: 0 <= i < |body| ==> body[i] != '\\'
    ensures RequoteStringLiteral(body, sourceIsDouble, singleQuotes) == RequoteAsWritten(body, sourceIsDouble, singleQuotes)
  {
    var sq := SourceQuote(sourceIsDouble);
    var q := Quote(singleQuotes);
    ReplaceAllNoMatch(body, ['\\', sq], [sq], 0);
    EscapeAgrees(body, sq, q);
  }

  lemma {:induction false} EscapeAgrees(s: string, sourceQuote: char, q: char)
    requires forall i :: 0 <= i < |s| ==> s[i] != '\\'
    ensures Render(RequoteUnits(Scan(s), sourceQuote, q)) == ReplaceAll(s, [q], ['\\', q])
    decreases |s|
  {
    if |s| > 0 {
      assert Scan(s) == [Plain(s[0])] + Scan(s[1..]);
      assert forall i :: 0 <= i < |s[1..]| ==> s[1..][i] == s[i + 1];
      EscapeAgrees(s[1..], sourceQuote, q);
      assert RequoteUnits(Scan(s), sourceQuote, q)[1..] == RequoteUnits(Scan(s[1..]), sourceQuote, q);
      assert s[..1] == [s[0]];
    }
  }

  /** Escaping single quotes in `it\'s` doubles its backslash: `it\\'s`. */
  lemma EscapeOnEscapedQuote()
    ensures ReplaceAll("it\\'s", ['\''], ['\\', '\'']) == "it\\\\'s"
  {
    var body := "it\\'s";
    ReplaceAllNoMatch("s", ['\''], ['\\', '\''], 0);
    assert "'s"[1..] == "s";
    assert ReplaceAll("'s", ['\''], ['\\', '\'']) == "\\'s";
    assert body[2..] == "\\'s" && body[2..][1..] == "'s";
    assert ReplaceAll(body[2..], ['\''], ['\\', '\'']) == "\\\\'s";
    assert body[1..] == "t\\'s" && body[1..][1..] == body[2..];
    assert ReplaceAll(body[1..], ['\''], ['\\', '\'']) == "t\\\\'s";
  }

  /** `"it\'s"` under the walker's definition, with single quotes configured, gives `'it\\'s'`. */
  lemma AsWrittenOnEscapedQuote()
    ensures RequoteAsWritten("it\\'s", true, true) == "'it\\\\'s'"
  {
    ReplaceAllNoMatch("it\\'s", ['\\', '"'], ['"'], 1);
    EscapeOnEscapedQuote();
  }

  /** The body `it\\'s` reads as `i`, `t`, an escaped backslash, then a bare `'`. */
  lemma ScanOfDoubledBackslash()
    ensures Scan("it\\\\'s")[3] == Plain('\'')
  {
    var inner := "it\\\\'s";
    assert inner[1..][1..] == inner[2..];
    assert inner[2..][2..] == "'s";
    assert Scan(inner[2..]) == [Escaped('\\')] + Scan("'s");
    assert Scan(inner[1..]) == [Plain('t')] + Scan(inner[2..]);
    assert Scan(inner) == [Plain('i')] + Scan(inner[1..]);
  }

  /** `'it\\'s'` is not a well-formed single-quoted literal: its body holds a bare `'`. */
  lemma BrokenLiteralNotWellQuoted()
    ensures !WellQuoted("'it\\\\'s'", '\'')
  {
    var lit := "'it\\\\'s'";
    assert lit[1..|lit| - 1] == "it\\\\'s";
    ScanOfDoubledBackslash();
  }

  /**
   * `"it\'s"` under the corrected definition, with single quotes
   * configured, gives the well-formed `'it\'s'`.
   */
  lemma CorrectedOnEscapedQuote()
    ensures RequoteStringLiteral("it\\'s", true, true) == "'it\\'s'"
    ensures WellQuoted(RequoteStringLiteral("it\\'s", true, true), '\'')
  {
    var body := "it\\'s";
    assert body[1..][1..] == "\\'s";
    assert body[2..][2..] == "s";
    assert Scan("s") == [Plain('s')];
    assert Scan(body) == [Plain('i'), Plain('t'), Escaped('\''), Plain('s')];
    var units := RequoteUnits(Scan(body), '"', '\'');
    assert units == [Plain('i'), Plain('t'), Escaped('\''), Plain('s')];
    var tail := [Escaped('\''), Plain('s')];
    assert tail[1..] == [Plain('s')];
    assert Render([Plain('s')]) == "s";
    assert Render(tail) == "\\'s";
    assert units[1..][1..] == tail;
    assert Render(units[1..]) == "t\\'s";
    assert Render(units) == "it\\'s";
    RequoteStringLiteralCorrect(body, true, true);
  }

  /**
   * The walker's definition breaks a double-quoted literal holding an
   * escaped single quote when single quotes are configured: `"it\'s"`
   * becomes `'it\\'s'`, whose body ends the literal after `it\\`.
   * `CorrectedOnEscapedQuote` shows the corrected definition on the same
   * input.
   */
  lemma AsWrittenBreaksEscapedQuote()
    ensures !WellQuoted(RequoteAsWritten("it\\'s", true, true), '\'')
  {
    AsWrittenOnEscapedQuote();
    BrokenLiteralNotWellQuoted();
  }

  // ---------------------------------------------------------------------
  // The literal's print item

  /**
   * `parseStringOrDirectiveLiteral` as the walker writes it: one raw
   * string item in the configured quote, each configured quote inside
   * following a backslash, and a body without quote characters copied
   * verbatim. `AsWrittenBreaksEscapedQuote` shows that the backslash may
   * itself be escaped, so the literal is not always well formed.
   */
  function ParseStringOrDirectiveLiteral(body: string, sourceIsDouble: bool, singleQuotes: bool): (r: PrintItem)
    ensures r.RawString? && |r.raw| >= 2
    ensures r.raw[0] == Quote(singleQuotes) && r.raw[|r.raw| - 1] == Quote(singleQuotes)
    ensures QuotesEscaped(r.raw[1..|r.raw| - 1], Quote(singleQuotes))
    ensures (forall i :: 0 <= i < |body| ==> body[i] != '"' && body[i] != '\'')
              ==> r.raw == [Quote(singleQuotes)] + body + [Quote(singleQuotes)]
  {
    RequoteAsWrittenShape(body, sourceIsDouble, singleQuotes);
    RawString(RequoteAsWritten(body, sourceIsDouble, singleQuotes))
  }

  /**
   * The corrected item: one raw string item holding a well-formed literal
   * in the configured quote that denotes the same string value as the
   * source body.
   */
  function ParseStringLiteralCorrected(body: string, sourceIsDouble: bool, singleQuotes: bool): (r: PrintItem)
    ensures r.RawString?
    ensures WellQuoted(r.raw, Quote(singleQuotes))
    ensures SameValue(Scan(r.raw[1..|r.raw| - 1]), Scan(body))
  {
    RequoteStringLiteralCorrect(body, sourceIsDouble, singleQuotes);
    RawString(RequoteStringLiteral(body, sourceIsDouble, singleQuotes))
  }
}

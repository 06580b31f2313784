/**
 * Comment printing in the TypeScript tree walker (`parseComment` with its
 * local `parseCommentBlock` and `parseCommentLine`). A comment is printed at
 * most once: the walker remembers which comments it has handled.
 */
module Comments {
  import opened PrintItems

  // ---------------------------------------------------------------------
  // JavaScript's String.prototype.trim

  /**
   * The characters `trim` removes: ECMAScript WhiteSpace (tab, vertical
   * tab, form feed, space, no-break space, byte order mark and the Unicode
   * space separators) and LineTerminator (line feed, carriage return, line
   * and paragraph separators).
   */
  predicate IsWhitespace(c: char) {
    || c == '\t' || c == '\n' || c == '\U{000B}' || c == '\U{000C}' || c == '\r' || c == ' '
    || c == '\U{00A0}' || c == '\U{1680}' || ('\U{2000}' <= c <= '\U{200A}')
    || c == '\U{2028}' || c == '\U{2029}' || c == '\U{202F}' || c == '\U{205F}'
    || c == '\U{3000}' || c == '\U{FEFF}'
  }

  ghost predicate AllWhitespace(s: string) {
    forall i :: 0 <= i < |s| ==> IsWhitespace(s[i])
  }

  /** Neither end of `s` is whitespace. */
  predicate Trimmed(s: string) {
    |s| == 0 || (!IsWhitespace(s[0]) && !IsWhitespace(s[|s| - 1]))
  }

  /** `s` without its leading whitespace: a suffix of `s`. */
  function TrimStart(s: string): (r: string)
    ensures |r| <= |s| && r == s[|s| - |r|..]
    ensures AllWhitespace(s[..|s| - |r|])
    ensures |r| > 0 ==> !IsWhitespace(r[0])
    decreases |s|
  {
    if |s| > 0 && IsWhitespace(s[0]) then TrimStart(s[1..]) else s
  }

  /** `s` without its trailing whitespace: a prefix of `s`. */
  function TrimEnd(s: string): (r: string)
    ensures |r| <= |s| && r == s[..|r|]
    ensures AllWhitespace(s[|r|..])
    ensures |r| > 0 ==> !IsWhitespace(r[|r| - 1])
    decreases |s|
  {
    if |s| > 0 && IsWhitespace(s[|s| - 1]) then TrimEnd(s[..|s| - 1]) else s
  }

  /** `trim`. */
  function Trim(s: string): (r: string)
    ensures Trimmed(r)
    ensures |r| <= |s|
  {
    TrimStart(TrimEnd(s))
  }

  /** `trim` removes whitespace runs at both ends and nothing else. */
  lemma TrimDecomposes(s: string)
    ensures exists a, b :: 0 <= a <= b <= |s| && Trim(s) == s[a..b] && AllWhitespace(s[..a]) && AllWhitespace(s[b..])
  {
    var e := TrimEnd(s);
    var r := TrimStart(e);
    var b := |e|;
    var a := b - |r|;
    assert e == s[..b];
    assert r == s[a..b];
    assert s[..a] == e[..a];
    assert AllWhitespace(s[..a]);
  }

  /** A string with no whitespace at either end is left alone. */
  lemma TrimOfTrimmed(s: string)
    requires Trimmed(s)
    ensures Trim(s) == s
  {
  }

  /** `trim` is idempotent. */
  lemma TrimIdempotent(s: string)
    ensures Trim(Trim(s)) == Trim(s)
  {
    TrimOfTrimmed(Trim(s));
  }

  /** A leading space before trimmed text is dropped. */
  lemma TrimAfterSpace(c: string)
    requires Trimmed(c)
    ensures Trim([' '] + c) == c
  {
    var s := [' '] + c;
    if |c| > 0 {
      assert TrimEnd(s) == s;
      assert s[1..] == c;
    } else {
      assert s[..|s| - 1] == "";
    }
  }

  /** `s` begins, after any whitespace, with `c`. */
  ghost predicate StartsVisiblyWith(s: string, c: char) {
    exists i :: 0 <= i < |s| && AllWhitespace(s[..i]) && s[i] == c
  }

  /** A visible character at `k` ends every all-whitespace prefix before it. */
  lemma VisibleBoundsPrefix(s: string, k: int, n: int)
    ensures 0 <= k < n <= |s| && !IsWhitespace(s[k]) ==> !AllWhitespace(s[..n])
  {
    if 0 <= k < n <= |s| && !IsWhitespace(s[k]) {
      assert s[..n][k] == s[k];
    }
  }

  /** A visible character at `k` ends every all-whitespace suffix after it. */
  lemma VisibleBoundsSuffix(s: string, k: int, n: int)
    ensures 0 <= n <= k < |s| && !IsWhitespace(s[k]) ==> !AllWhitespace(s[n..])
  {
    if 0 <= n <= k < |s| && !IsWhitespace(s[k]) {
      assert s[n..][k - n] == s[k];
    }
  }

  /** A trimmed text starting with a visible `c` means `s` starts visibly with `c`. */
  lemma TrimmedStartVisible(s: string, c: char)
    ensures |Trim(s)| > 0 && Trim(s)[0] == c ==> StartsVisiblyWith(s, c)
  {
    TrimDecomposes(s);
    var a, b :| 0 <= a <= b <= |s| && Trim(s) == s[a..b] && AllWhitespace(s[..a]) && AllWhitespace(s[b..]);
    if |Trim(s)| > 0 && Trim(s)[0] == c {
      assert s[a] == c;
    }
  }

  /**
   * Between all-whitespace ends `s[..a]` and `s[b..]`, with `s[a]` visible,
   * the first visible character of `s` sits at `a`.
   */
  lemma FirstVisibleAt(s: string, a: int, b: int, i: int)
    requires 0 <= a <= b <= |s| && AllWhitespace(s[..a]) && AllWhitespace(s[b..])
    requires a < b ==> !IsWhitespace(s[a])
    requires 0 <= i < |s| && AllWhitespace(s[..i]) && !IsWhitespace(s[i])
    ensures a == i < b
  {
    VisibleBoundsPrefix(s, i, a);
    VisibleBoundsSuffix(s, i, b);
    VisibleBoundsPrefix(s, a, i);
  }

  /** A trimmed slice between all-whitespace ends starts with the first visible character. */
  lemma VisibleStartOfSlice(s: string, t: string, a: int, b: int, c: char)
    requires 0 <= a <= b <= |s| && t == s[a..b] && Trimmed(t)
    requires AllWhitespace(s[..a]) && AllWhitespace(s[b..]) && !IsWhitespace(c)
    ensures StartsVisiblyWith(s, c) ==> |t| > 0 && t[0] == c
  {
    if StartsVisiblyWith(s, c) {
      assert a < b ==> t[0] == s[a];
      var i :| 0 <= i < |s| && AllWhitespace(s[..i]) && s[i] == c;
      FirstVisibleAt(s, a, b, i);
    }
  }

  /** The first visible character of `s` is the first character of the trimmed text. */
  lemma VisibleStartTrimmed(s: string, c: char)
    requires !IsWhitespace(c)
    ensures StartsVisiblyWith(s, c) ==> |Trim(s)| > 0 && Trim(s)[0] == c
  {
    TrimDecomposes(s);
    var a, b :| 0 <= a <= b <= |s| && Trim(s) == s[a..b] && AllWhitespace(s[..a]) && AllWhitespace(s[b..]);
    VisibleStartOfSlice(s, Trim(s), a, b, c);
  }

  /** The first character of the trimmed text is the first visible character. */
  lemma TrimmedStart(s: string, c: char)
    requires !IsWhitespace(c)
    ensures (|Trim(s)| > 0 && Trim(s)[0] == c) <==> StartsVisiblyWith(s, c)
  {
    TrimmedStartVisible(s, c);
    VisibleStartTrimmed(s, c);
  }

  // ---------------------------------------------------------------------
  // Comment items

  datatype CommentKind = CommentBlock | CommentLine

  /**
   * A comment as the parser reports it: `id` stands for the comment
   * object's identity, `value` is the text between the delimiters.
   */
  datatype Comment = Comment(id: nat, kind: CommentKind, value: string)

  /** `parseCommentBlock`: the block's text between `/*` and `*/`, verbatim. */
  function CommentBlockItems(value: string): (r: seq<PrintItem>)
    ensures |r| == 3 && r[0] == Text("/*") && r[2] == Text("*/")
    ensures r[1].RawString? && r[1].raw == value
  {
    [Text("/*"), RawString(value)] + [Text("*/")]
  }

  /**
   * `parseCommentLine`: `//` (or `///` for a triple-slash comment), the
   * trimmed content after one space, then the expectation of a newline.
   */
  function CommentLineItems(value: string): (r: seq<PrintItem>)
    ensures 2 <= |r| <= 3
    ensures r[0] == Text("///") || r[0] == Text("//")
    ensures IsSignal(r[|r| - 1], ExpectNewLine)
  {
    var (tripleSlash, content) := LineContent(value);
    LineItems(tripleSlash, content)
  }

  /**
   * Whether a line comment's value marks a triple-slash comment, and the
   * content to print after the prefix.
   */
  function LineContent(value: string): (r: (bool, string))
    ensures Trimmed(r.1)
  {
    var raw := Trim(value);
    var tripleSlash := |raw| > 0 && raw[0] == '/';
    (tripleSlash, Trim(if tripleSlash then raw[1..] else raw))
  }

  function LineItems(tripleSlash: bool, content: string): (r: seq<PrintItem>)
    ensures 2 <= |r| <= 3 && r[|r| - 1] == Sig(ExpectNewLine)
  {
    var prefix := if tripleSlash then "///" else "//";
    if |content| > 0 then [Text(prefix), Text([' '] + content), Sig(ExpectNewLine)]
    else [Text(prefix), Sig(ExpectNewLine)]
  }

  /** The text a comment line contributes: the prefix, then the content line if any. */
  function LineText(items: seq<PrintItem>): string {
    if |items| == 0 then ""
    else (if items[0].Text? then items[0].text else "") + LineText(items[1..])
  }

  /** What a line comment's value becomes once printed: the text after `//`. */
  function FormattedValue(tripleSlash: bool, content: string): string {
    (if tripleSlash then "/" else "") + (if |content| > 0 then [' '] + content else "")
  }

  lemma LineItemsText(tripleSlash: bool, content: string)
    ensures LineText(LineItems(tripleSlash, content)) == "//" + FormattedValue(tripleSlash, content)
  {
    var items := LineItems(tripleSlash, content);
    assert LineText([Sig(ExpectNewLine)]) == "";
    if |content| > 0 {
      assert items[1..][1..] == [Sig(ExpectNewLine)];
    } else {
      assert items[1..] == [Sig(ExpectNewLine)];
    }
  }

  /** A comment is triple-slash exactly when its first visible character is `/`. */
  lemma LineContentTripleSlash(value: string)
    ensures LineContent(value).0 <==> StartsVisiblyWith(value, '/')
  {
    TrimmedStart(value, '/');
  }

  /** Outside triple-slash comments the content is the whole trimmed value, so it does not start with `/`. */
  lemma LineContentPlain(value: string)
    requires !LineContent(value).0
    ensures var content := LineContent(value).1;
      content == Trim(value) && (|content| == 0 || content[0] != '/')
  {
    TrimIdempotent(value);
  }

  /** A comment of only whitespace has no content and is not triple-slash. */
  lemma LineContentBlank(value: string)
    requires AllWhitespace(value)
    ensures LineContent(value) == (false, "")
  {
    TrimDecomposes(value);
    var a, b :| 0 <= a <= b <= |value| && Trim(value) == value[a..b] && AllWhitespace(value[..a]) && AllWhitespace(value[b..]);
  }

  /** Reading back a printed comment value recovers the same prefix and content. */
  lemma LineContentOfFormatted(tripleSlash: bool, content: string)
    requires Trimmed(content)
    requires !tripleSlash ==> |content| == 0 || content[0] != '/'
    ensures LineContent(FormattedValue(tripleSlash, content)) == (tripleSlash, content)
  {
    var v := FormattedValue(tripleSlash, content);
    if tripleSlash && |content| > 0 {
      assert v == ['/'] + ([' '] + content);
      ReadBackTripleSlash(content);
    } else if tripleSlash {
      assert v == "/";
      ReadBackSlash();
    } else if |content| > 0 {
      assert v == [' '] + content;
      ReadBackPlain(content);
    } else {
      assert v == "";
      ReadBackEmpty();
    }
  }

  lemma ReadBackSlash()
    ensures LineContent("/") == (true, "")
  {
    TrimOfTrimmed("/");
    assert "/"[1..] == "";
  }

  lemma ReadBackEmpty()
    ensures LineContent("") == (false, "")
  {
  }

  lemma ReadBackTripleSlash(content: string)
    requires Trimmed(content) && |content| > 0
    ensures LineContent(['/'] + ([' '] + content)) == (true, content)
  {
    var v := ['/'] + ([' '] + content);
    assert v[|v| - 1] == content[|content| - 1];
    TrimOfTrimmed(v);
    assert v[1..] == [' '] + content;
    TrimAfterSpace(content);
  }

  lemma ReadBackPlain(content: string)
    requires Trimmed(content) && |content| > 0 && content[0] != '/'
    ensures LineContent([' '] + content) == (false, content)
  {
    TrimAfterSpace(content);
    TrimIdempotent(content);
  }

  /**
   * A line comment is printed with `///` exactly when its first visible
   * character is `/`; the content follows after a single space exactly when
   * it is not empty, and outside triple-slash comments it is the trimmed
   * value; a blank comment prints as `//` alone.
   */
  lemma CommentLineShape(value: string)
    ensures var r := CommentLineItems(value);
      && (r[0] == Text("///") <==> StartsVisiblyWith(value, '/'))
      && (r[0] == Text("///") <==> |Trim(value)| > 0 && Trim(value)[0] == '/')
      && (|r| == 3 <==> |LineContent(value).1| > 0)
      && (|r| == 3 ==> r[1] == Text([' '] + LineContent(value).1))
      && (!StartsVisiblyWith(value, '/') ==> LineContent(value).1 == Trim(value))
      && (AllWhitespace(value) ==> r == [Text("//"), Sig(ExpectNewLine)])
  {
    LineContentTripleSlash(value);
    var (tripleSlash, content) := LineContent(value);
    var r := CommentLineItems(value);
    assert r == LineItems(tripleSlash, content);
    if !tripleSlash {
      LineContentPlain(value);
    }
    if AllWhitespace(value) {
      LineContentBlank(value);
    }
  }

  /**
   * Formatting a line comment is idempotent: the comment printed from the
   * items, read back (its text after `//`), prints the same items again.
   */
  lemma CommentLineIdempotent(value: string)
    ensures var printed := LineText(CommentLineItems(value));
      |printed| >= 2 && CommentLineItems(printed[2..]) == CommentLineItems(value)
  {
    var (tripleSlash, content) := LineContent(value);
    LineItemsText(tripleSlash, content);
    var printed := LineText(CommentLineItems(value));
    assert printed[2..] == FormattedValue(tripleSlash, content);
    if !tripleSlash {
      LineContentPlain(value);
    }
    LineContentOfFormatted(tripleSlash, content);
  }

  /** The print items of one comment, by its kind. */
  function CommentItems(c: Comment): (r: seq<PrintItem>)
    ensures |r| >= 2
    ensures c.kind == CommentBlock ==> r == CommentBlockItems(c.value)
    ensures c.kind == CommentLine ==> r == CommentLineItems(c.value)
  {
    match c.kind
    case CommentBlock => CommentBlockItems(c.value)
    case CommentLine => CommentLineItems(c.value)
  }

  /**
   * `parseComment`: a comment already handled prints nothing; otherwise it
   * is marked handled and printed.
   */
  function ParseComment(handled: set<nat>, c: Comment): (r: (seq<PrintItem>, set<nat>))
    ensures r.1 == handled + {c.id}
    ensures r.0 == [] <==> c.id in handled
    ensures c.id !in handled ==> r.0 == CommentItems(c)
  {
    if c.id in handled then ([], handled) else (CommentItems(c), handled + {c.id})
  }

  /** Parsing a run of comments in order, threading the handled set. */
  function ParseComments(handled: set<nat>, cs: seq<Comment>): (r: (seq<PrintItem>, set<nat>))
    ensures handled <= r.1
    decreases |cs|
  {
    if |cs| == 0 then ([], handled)
    else
      var first := ParseComment(handled, cs[0]);
      var rest := ParseComments(first.1, cs[1..]);
      (first.0 + rest.0, rest.1)
  }

  /** After a run, exactly the run's comments have been added to the handled set. */
  lemma {:induction false} ParseCommentsHandles(handled: set<nat>, cs: seq<Comment>)
    ensures ParseComments(handled, cs).1 == handled + set i | 0 <= i < |cs| :: cs[i].id
    decreases |cs|
  {
    if |cs| > 0 {
      var next := handled + {cs[0].id};
      ParseCommentsHandles(next, cs[1..]);
      var ids := set i | 0 <= i < |cs| :: cs[i].id;
      var restIds := set i | 0 <= i < |cs[1..]| :: cs[1..][i].id;
      assert ids == {cs[0].id} + restIds by {
        forall x | x in ids ensures x in {cs[0].id} + restIds {
          var i :| 0 <= i < |cs| && cs[i].id == x;
          if i > 0 { assert cs[1..][i - 1].id == x; }
        }
        forall x | x in restIds ensures x in ids {
          var i :| 0 <= i < |cs[1..]| && cs[1..][i].id == x;
          assert cs[i + 1].id == x;
        }
      }
    }
  }

  /** Comments that are all handled already print nothing. */
  lemma {:induction false} ParseCommentsHandledSilent(handled: set<nat>, cs: seq<Comment>)
    requires forall i :: 0 <= i < |cs| ==> cs[i].id in handled
    ensures ParseComments(handled, cs) == ([], handled)
    decreases |cs|
  {
    if |cs| > 0 {
      assert ParseComment(handled, cs[0]) == ([], handled);
      assert forall i :: 0 <= i < |cs[1..]| ==> cs[1..][i] == cs[i + 1];
      ParseCommentsHandledSilent(handled, cs[1..]);
      var none: seq<PrintItem> := [];
      assert none + none == none;
    }
  }

  /**
   * No comment is printed twice: parsing a run again, after it has been
   * parsed once, prints nothing and handles nothing new.
   */
  lemma ParseCommentsOnce(handled: set<nat>, cs: seq<Comment>)
    ensures var after := ParseComments(handled, cs).1;
      ParseComments(after, cs) == ([], after)
  {
    ParseCommentsHandles(handled, cs);
    ParseCommentsHandledSilent(ParseComments(handled, cs).1, cs);
  }
}

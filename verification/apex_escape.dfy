/** The Apex target's escape table and its escaper for raw strings (text
    with no delimiters and no escapes of its own). */
module ApexEscape {
  import opened Wrappers
  import opened ApexLiteral

  /** Escape strings indexed by character code; `None` is a null entry. */
  type EscapeTable = seq<Option<string>>

  const DoubleQuote: char := '"'

  /** The escape the Apex target adds for its quote mark. */
  const QuoteEscape: string := [Backslash, QuoteMark]

  /** The table as the Apex constructor leaves it: the quote mark escapes
      to `\'`, every other entry is the one the base target built. */
  function ApexTable(base: EscapeTable): (t: EscapeTable)
    requires |base| > QuoteMark as int
    ensures HasQuoteEntry(t)
    ensures |t| == |base|
    ensures forall k :: 0 <= k < |t| && k != QuoteMark as int ==> t[k] == base[k]
  {
    base[QuoteMark as int := Some(QuoteEscape)]
  }

  /** The table holds the entry the Apex constructor sets. */
  predicate HasQuoteEntry(t: EscapeTable) {
    |t| > QuoteMark as int && t[QuoteMark as int] == Some(QuoteEscape)
  }

  /** Whether the escaper replaces `c` by a table entry: never the double
      quote, otherwise exactly when its code has a non-null entry. */
  predicate Replaced(t: EscapeTable, c: char) {
    c != DoubleQuote && (c as int) < |t| && t[c as int].Some?
  }

  /** What one character becomes. */
  function CharImage(t: EscapeTable, c: char): string {
    if Replaced(t, c) then t[c as int].value else [c]
  }

  /** The escaped text, without delimiters: each character's image, in order. */
  function EscapeText(t: EscapeTable, s: string): string
    decreases |s|
  {
    if |s| == 0 then [] else CharImage(t, s[0]) + EscapeText(t, s[1..])
  }

  /** The escaper: a null string stays null; otherwise the escaped text,
      wrapped in quote marks when `quoted` is set. */
  function FromString(t: EscapeTable, s: Option<string>, quoted: bool): (r: Option<string>)
    ensures r.Some? <==> s.Some?
  {
    match s
    case None => None
    case Some(text) =>
      var body := EscapeText(t, text);
      Some(if quoted then [QuoteMark] + body + [QuoteMark] else body)
  }

  /** Quoting only adds the two delimiters around the unquoted result. */
  lemma QuotedWrapsUnquoted(t: EscapeTable, s: string)
    ensures FromString(t, Some(s), true) == Some([QuoteMark] + FromString(t, Some(s), false).value + [QuoteMark])
    ensures FromString(t, Some(s), false) == Some(EscapeText(t, s))
  {
  }

  /** The escaped text splits over concatenation. */
  lemma {:induction false} EscapeTextAppend(t: EscapeTable, a: string, b: string)
    ensures EscapeText(t, a + b) == EscapeText(t, a) + EscapeText(t, b)
    decreases |a|
  {
    if |a| == 0 {
      assert a + b == b;
    } else {
      assert (a + b)[1..] == a[1..] + b;
      EscapeTextAppend(t, a[1..], b);
    }
  }

  /** Each character is escaped on its own, whatever surrounds it. */
  lemma EscapeTextAt(t: EscapeTable, a: string, c: char, b: string)
    ensures EscapeText(t, a + [c] + b) == EscapeText(t, a) + CharImage(t, c) + EscapeText(t, b)
  {
    EscapeTextAppend(t, a + [c], b);
    EscapeTextAppend(t, a, [c]);
    assert EscapeText(t, [c]) == CharImage(t, c);
  }

  /** The double quote is always copied, whatever the table says. */
  lemma DoubleQuoteVerbatim(t: EscapeTable, a: string, b: string)
    ensures EscapeText(t, a + [DoubleQuote] + b) == EscapeText(t, a) + [DoubleQuote] + EscapeText(t, b)
  {
    EscapeTextAt(t, a, DoubleQuote, b);
  }

  /** With the Apex entry, the quote mark becomes `\'`. */
  lemma QuoteMarkEscaped(t: EscapeTable, a: string, b: string)
    requires HasQuoteEntry(t)
    ensures EscapeText(t, a + [QuoteMark] + b) == EscapeText(t, a) + QuoteEscape + EscapeText(t, b)
  {
    EscapeTextAt(t, a, QuoteMark, b);
  }

  /** A character with a non-null entry below the table's length is replaced
      by that entry; any other character is copied. */
  lemma TableEntryUsed(t: EscapeTable, a: string, c: char, b: string)
    ensures Replaced(t, c) ==>
      EscapeText(t, a + [c] + b) == EscapeText(t, a) + t[c as int].value + EscapeText(t, b)
    ensures !Replaced(t, c) ==>
      EscapeText(t, a + [c] + b) == EscapeText(t, a) + [c] + EscapeText(t, b)
  {
    EscapeTextAt(t, a, c, b);
  }

  /** Text with nothing to replace comes out unchanged. */
  lemma {:induction false} NothingToEscape(t: EscapeTable, s: string)
    requires forall k :: 0 <= k < |s| ==> !Replaced(t, s[k])
    ensures EscapeText(t, s) == s
    decreases |s|
  {
    if |s| > 0 {
      NothingToEscape(t, s[1..]);
      assert s == [s[0]] + s[1..];
    }
  }

  /** A table under which every escape the escaper can use is a well-formed
      interior: it has the Apex quote entry, an entry for the backslash, and
      every non-null entry is well-formed. The double quote's
      entry is never used, so it may hold anything (`\"`, say). */
  predicate ValidApexTable(t: EscapeTable) {
    && HasQuoteEntry(t)
    && |t| > Backslash as int
    && t[Backslash as int].Some?
    && forall k :: 0 <= k < |t| && k != DoubleQuote as int && t[k].Some? ==> WellFormed(t[k].value)
  }

  /** The double quote's entry plays no part in validity: a base table that
      escapes `"` as `\"`, as Java targets do, can still be valid. */
  lemma DoubleQuoteEntryIgnored(t: EscapeTable, e: Option<string>)
    requires ValidApexTable(t)
    ensures ValidApexTable(t[DoubleQuote as int := e])
  {
  }

  /** Under a valid table, the escaped text of any string is a well-formed
      interior. */
  lemma {:induction false} EscapeTextWellFormed(t: EscapeTable, s: string)
    requires ValidApexTable(t)
    ensures WellFormed(EscapeText(t, s))
    decreases |s|
  {
    if |s| > 0 {
      EscapeTextWellFormed(t, s[1..]);
      var c := s[0];
      if Replaced(t, c) {
        assert WellFormed(t[c as int].value);
      } else {
        assert c != Backslash && c != QuoteMark;
        assert WellFormed([c]);
      }
      WellFormedAppend(CharImage(t, c), EscapeText(t, s[1..]));
    }
  }

  /** Under a valid table, the quoted result has a well-formed interior, so
      the literal transcoder leaves it as it is. */
  lemma QuotedIsApexLiteral(t: EscapeTable, s: string)
    requires ValidApexTable(t)
    ensures Transcode(FromString(t, Some(s), true).value) == FromString(t, Some(s), true).value
  {
    EscapeTextWellFormed(t, s);
    WellFormedIsFixed(EscapeText(t, s));
  }

  /** One iteration of ApexTarget's loop appends the next character's image
      to the escaped prefix. */
  lemma LoopStep(t: EscapeTable, s: string, i: nat, open: string, buf: string)
    requires i < |s| && buf == open + EscapeText(t, s[..i])
    ensures buf + CharImage(t, s[i]) == open + EscapeText(t, s[..i + 1])
  {
    assert s[..i + 1] == s[..i] + [s[i]];
    EscapeTextAppend(t, s[..i], [s[i]]);
    assert EscapeText(t, [s[i]]) == CharImage(t, s[i]);
    AppendAssociative(open, EscapeText(t, s[..i]), CharImage(t, s[i]));
  }

  lemma LoopExit(t: EscapeTable, s: string, quoted: bool, buf: string)
    requires buf == (if quoted then [QuoteMark] else []) + EscapeText(t, s[..|s|])
    ensures FromString(t, Some(s), quoted) == Some(if quoted then buf + [QuoteMark] else buf)
  {
    assert s[..|s|] == s;
    if !quoted {
      assert [] + EscapeText(t, s) == EscapeText(t, s);
    }
  }

  /** The escaper as the Java code writes it: one loop over the characters,
      appending each one's image to a buffer. */
  method FromStringLoop(t: EscapeTable, s: Option<string>, quoted: bool) returns (r: Option<string>)
    ensures r == FromString(t, s, quoted)
  {
    if s.None? {
      return None;
    }
    var text := s.value;
    var buf: string := if quoted then [QuoteMark] else [];
    ghost var open := buf;
    var i := 0;
    while i < |text|
      invariant 0 <= i <= |text|
      invariant buf == open + EscapeText(t, text[..i])
    {
      var c := text[i];
      LoopStep(t, text, i, open, buf);
      if c != DoubleQuote && (c as int) < |t| && t[c as int].Some? {
        buf := buf + t[c as int].value;
      } else {
        buf := buf + [c];
      }
      i := i + 1;
    }
    LoopExit(t, text, quoted, buf);
    if quoted {
      buf := buf + [QuoteMark];
    }
    r := Some(buf);
  }
}

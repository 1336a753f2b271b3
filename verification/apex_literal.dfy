/** Translation of an ANTLR grammar literal (single-quoted, with ANTLR's
    escapes) into an Apex string literal. */
module ApexLiteral {

  /** The delimiter of Apex string literals. */
  const QuoteMark: char := '\''

  const Backslash: char := '\\'

  /** The escaped characters whose escape Apex also needs, so the backslash
      is passed through. Every other escape loses its backslash. */
  predicate KeepsEscape(c: char) {
    c == '\'' || c == 'n' || c == 'r' || c == 't' || c == 'b' || c == 'f' || c == '\\' || c == 'u'
  }

  /** What an escape `\c` of the grammar literal becomes. */
  function EscapeImage(c: char): seq<char> {
    if KeepsEscape(c) then [Backslash, c] else [c]
  }

  /** What an unescaped character of the grammar literal becomes: only the
      quote mark needs a backslash. */
  function PlainImage(c: char): seq<char> {
    if c == QuoteMark then [Backslash, c] else [c]
  }

  /** A well-formed literal interior: a sequence of escapes `\c` with `c`
      one of the kept escapes `' n r t b f \ u`, and characters that are
      neither a backslash nor the quote mark. So it has no bare quote mark
      and no dangling backslash. It says nothing else about the characters:
      a raw line break, which Apex rejects inside a literal, is accepted,
      and `\"`, which Apex accepts, is not. */
  predicate WellFormed(s: seq<char>)
    decreases |s|
  {
    if |s| == 0 then true
    else if s[0] == Backslash then |s| >= 2 && KeepsEscape(s[1]) && WellFormed(s[2..])
    else s[0] != QuoteMark && WellFormed(s[1..])
  }

  /** `s` splits into whole scan steps: no backslash is left without the
      character it escapes. */
  predicate NoDanglingEscape(s: seq<char>)
    decreases |s|
  {
    if |s| == 0 then true
    else if s[0] == Backslash then |s| >= 2 && NoDanglingEscape(s[2..])
    else NoDanglingEscape(s[1..])
  }

  /** Two well-formed interiors side by side form one. */
  lemma {:induction false} WellFormedAppend(a: seq<char>, b: seq<char>)
    requires WellFormed(a) && WellFormed(b)
    ensures WellFormed(a + b)
    decreases |a|
  {
    if |a| == 0 {
      assert a + b == b;
    } else if a[0] == Backslash {
      WellFormedAppend(a[2..], b);
      assert (a + b)[2..] == a[2..] + b;
    } else {
      WellFormedAppend(a[1..], b);
      assert (a + b)[1..] == a[1..] + b;
    }
  }

  /** The scan over the interior `body` of a grammar literal. `close` is the
      closing delimiter, which a backslash in the last interior position
      takes as the character it escapes. */
  function Scan(body: seq<char>, close: char): seq<char>
    decreases |body|
  {
    if |body| == 0 then []
    else if body[0] == Backslash then
      if |body| == 1 then EscapeImage(close) else EscapeImage(body[1]) + Scan(body[2..], close)
    else PlainImage(body[0]) + Scan(body[1..], close)
  }

  /** Whatever the input, the scan emits a well-formed interior, at
      most two characters per input character. */
  lemma {:induction false} ScanWellFormed(body: seq<char>, close: char)
    ensures WellFormed(Scan(body, close))
    ensures |Scan(body, close)| <= 2 * |body|
    decreases |body|
  {
    if |body| == 0 {
    } else if body[0] == Backslash {
      if |body| > 1 {
        ScanWellFormed(body[2..], close);
        WellFormedAppend(EscapeImage(body[1]), Scan(body[2..], close));
      }
    } else {
      ScanWellFormed(body[1..], close);
      WellFormedAppend(PlainImage(body[0]), Scan(body[1..], close));
    }
  }

  /** The interior of a literal: everything between its two delimiters. */
  function Interior(lit: seq<char>): seq<char>
    requires |lit| >= 2
  {
    lit[1..|lit| - 1]
  }

  /** The Apex literal for the ANTLR literal `lit`. Whatever `lit` is, the
      result is single-quoted and its interior is well-formed: no bare quote
      mark, no dangling backslash, only kept escapes. A literal of length at
      most two gives `''`. */
  function Transcode(lit: seq<char>): (r: seq<char>)
    ensures |r| >= 2 && r[0] == QuoteMark && r[|r| - 1] == QuoteMark
    ensures WellFormed(Interior(r))
    ensures |lit| <= 2 ==> r == [QuoteMark, QuoteMark]
  {
    if |lit| <= 2 then [QuoteMark, QuoteMark]
    else
      var r := [QuoteMark] + Scan(lit[1..|lit| - 1], lit[|lit| - 1]) + [QuoteMark];
      ScanWellFormed(lit[1..|lit| - 1], lit[|lit| - 1]);
      assert Interior(r) == Scan(lit[1..|lit| - 1], lit[|lit| - 1]);
      r
  }

  /** The scan output still to come when the loop is at index `i`. */
  ghost function Remaining(lit: seq<char>, i: nat): seq<char>
  {
    if i + 1 >= |lit| then [] else Scan(lit[i..|lit| - 1], lit[|lit| - 1])
  }

  /** Slicing a slice is slicing the original. */
  lemma SliceOfSlice(s: seq<char>, i: nat, j: nat, k: nat)
    requires i + k <= j <= |s|
    ensures s[i..j][k..] == s[i + k..j]
  {
  }

  /** At an escape the scan emits the escape's image and resumes two
      characters on. */
  lemma RemainingAtEscape(lit: seq<char>, i: nat)
    requires 1 <= i < |lit| - 1 && lit[i] == Backslash
    ensures Remaining(lit, i) == EscapeImage(lit[i + 1]) + Remaining(lit, i + 2)
  {
    var body, close := lit[i..|lit| - 1], lit[|lit| - 1];
    assert Remaining(lit, i) == Scan(body, close);
    assert body[0] == Backslash;
    if |body| == 1 {
      assert Scan(body, close) == EscapeImage(lit[i + 1]);
      AppendEmpty(EscapeImage(lit[i + 1]));
    } else {
      assert body[1] == lit[i + 1];
      assert Scan(body, close) == EscapeImage(lit[i + 1]) + Scan(body[2..], close);
      SliceOfSlice(lit, i, |lit| - 1, 2);
      if i + 2 < |lit| - 1 {
        assert Remaining(lit, i + 2) == Scan(body[2..], close);
      } else {
        assert |body[2..]| == 0;
        assert Scan(body[2..], close) == [];
      }
    }
  }

  /** At any other character the scan emits its image and resumes one
      character on. */
  lemma RemainingAtPlain(lit: seq<char>, i: nat)
    requires 1 <= i < |lit| - 1 && lit[i] != Backslash
    ensures Remaining(lit, i) == PlainImage(lit[i]) + Remaining(lit, i + 1)
  {
    var body, close := lit[i..|lit| - 1], lit[|lit| - 1];
    assert Remaining(lit, i) == Scan(body, close);
    assert body[0] == lit[i];
    assert Scan(body, close) == PlainImage(lit[i]) + Scan(body[1..], close);
    SliceOfSlice(lit, i, |lit| - 1, 1);
    if i + 1 < |lit| - 1 {
      assert Remaining(lit, i + 1) == Scan(body[1..], close);
    } else {
      assert |body[1..]| == 0;
      assert Scan(body[1..], close) == [];
    }
  }

  /** The output is the whole scan between two quote marks. */
  lemma TranscodeFromRemaining(lit: seq<char>)
    ensures Transcode(lit) == [QuoteMark] + Remaining(lit, 1) + [QuoteMark]
  {
  }

  lemma AppendAssociative(a: seq<char>, b: seq<char>, c: seq<char>)
    ensures (a + b) + c == a + (b + c)
  {
  }

  lemma AppendEmpty(a: seq<char>)
    ensures a + [] == a
  {
  }

  /** What the loop appends for an escape `\c`: a backslash first when the
      escape is kept, then `c`. */
  lemma EscapeStepOutput(prev: seq<char>, c: char)
    ensures (if KeepsEscape(c) then prev + [Backslash] else prev) + [c] == prev + EscapeImage(c)
  {
  }

  /** What the loop appends for an unescaped `c`: a backslash first when it
      is the quote mark, then `c`. */
  lemma PlainStepOutput(prev: seq<char>, c: char)
    ensures (if c == QuoteMark then prev + [Backslash] else prev) + [c] == prev + PlainImage(c)
  {
  }

  /** The output ApexTarget's loop still appends when it reaches index
      `i`: the same scan, read by index over the whole literal. */
  function ScanFrom(lit: seq<char>, i: nat): seq<char>
    decreases |lit| - i
  {
    if i + 1 >= |lit| then []
    else if lit[i] == Backslash then EscapeImage(lit[i + 1]) + ScanFrom(lit, i + 2)
    else PlainImage(lit[i]) + ScanFrom(lit, i + 1)
  }

  /** Reading by index from `i` is scanning the rest of the interior. */
  lemma {:induction false} ScanFromIsScan(lit: seq<char>, i: nat)
    requires 1 <= i
    ensures ScanFrom(lit, i) == Remaining(lit, i)
    decreases |lit| - i, 1
  {
    if i + 1 >= |lit| {
    } else if lit[i] == Backslash {
      ScanFromAtEscape(lit, i);
    } else {
      ScanFromAtPlain(lit, i);
    }
  }

  /** The escape case of `ScanFromIsScan`. */
  lemma {:induction false} ScanFromAtEscape(lit: seq<char>, i: nat)
    requires 1 <= i < |lit| - 1 && lit[i] == Backslash
    ensures ScanFrom(lit, i) == Remaining(lit, i)
    decreases |lit| - i, 0
  {
    ScanFromIsScan(lit, i + 2);
    RemainingAtEscape(lit, i);
  }

  /** The plain-character case of `ScanFromIsScan`. */
  lemma {:induction false} ScanFromAtPlain(lit: seq<char>, i: nat)
    requires 1 <= i < |lit| - 1 && lit[i] != Backslash
    ensures ScanFrom(lit, i) == Remaining(lit, i)
    decreases |lit| - i, 0
  {
    ScanFromIsScan(lit, i + 1);
    RemainingAtPlain(lit, i);
  }

  /** One iteration of ApexTarget's loop at an escape: what it appends,
      followed by the output still to come afterwards, is the output still
      to come before. */
  lemma EscapeStep(lit: seq<char>, i: nat, prev: seq<char>)
    requires 1 <= i < |lit| - 1 && lit[i] == Backslash
    ensures (if KeepsEscape(lit[i + 1]) then prev + [Backslash] else prev) + [lit[i + 1]] + ScanFrom(lit, i + 2)
         == prev + ScanFrom(lit, i)
  {
    EscapeStepOutput(prev, lit[i + 1]);
    AppendAssociative(prev, EscapeImage(lit[i + 1]), ScanFrom(lit, i + 2));
  }

  /** The same at an unescaped character. */
  lemma PlainStep(lit: seq<char>, i: nat, prev: seq<char>)
    requires 1 <= i < |lit| - 1 && lit[i] != Backslash
    ensures (if lit[i] == QuoteMark then prev + [Backslash] else prev) + [lit[i]] + ScanFrom(lit, i + 1)
         == prev + ScanFrom(lit, i)
  {
    PlainStepOutput(prev, lit[i]);
    AppendAssociative(prev, PlainImage(lit[i]), ScanFrom(lit, i + 1));
  }

  /** The transcoder as the Java code writes it: one index loop that advances
      a second time past the character an escape introduces. */
  method TranscodeLoop(lit: seq<char>) returns (sb: seq<char>)
    ensures sb == Transcode(lit)
  {
    sb := [QuoteMark];
    var i := 1;
    ghost var target := [QuoteMark] + ScanFrom(lit, 1);
    while i < |lit| - 1
      invariant 1 <= i
      invariant sb + ScanFrom(lit, i) == target
      decreases |lit| - i
    {
      if lit[i] == Backslash {
        EscapeStep(lit, i, sb);
        if KeepsEscape(lit[i + 1]) {
          sb := sb + [Backslash];
        }
        i := i + 1;
      } else {
        PlainStep(lit, i, sb);
        if lit[i] == QuoteMark {
          sb := sb + [Backslash];
        }
      }
      sb := sb + [lit[i]];
      i := i + 1;
    }
    assert sb == target by {
      AppendEmpty(sb);
    }
    ScanFromIsScan(lit, 1);
    TranscodeFromRemaining(lit);
    sb := sb + [QuoteMark];
  }

  /** A scan that ends on a step boundary never looks at the closing
      delimiter. */
  lemma {:induction false} ScanIgnoresClose(a: seq<char>, c1: char, c2: char)
    requires NoDanglingEscape(a)
    ensures Scan(a, c1) == Scan(a, c2)
    decreases |a|
  {
    if |a| == 0 {
    } else if a[0] == Backslash {
      ScanIgnoresClose(a[2..], c1, c2);
    } else {
      ScanIgnoresClose(a[1..], c1, c2);
    }
  }

  /** The scan splits over concatenation at a step boundary. */
  lemma {:induction false} ScanAppend(a: seq<char>, b: seq<char>, close: char)
    requires NoDanglingEscape(a)
    ensures Scan(a + b, close) == Scan(a, close) + Scan(b, close)
    decreases |a|
  {
    if |a| == 0 {
      assert a + b == b;
    } else if a[0] == Backslash {
      assert (a + b)[2..] == a[2..] + b;
      ScanAppend(a[2..], b, close);
    } else {
      assert (a + b)[1..] == a[1..] + b;
      ScanAppend(a[1..], b, close);
    }
  }

  /** The output's interior is the scan of the input's interior, with the
      input's closing delimiter as the last look-ahead. */
  lemma InteriorOfTranscode(o: char, body: seq<char>, e: char)
    ensures Interior(Transcode([o] + body + [e])) == Scan(body, e)
  {
    var lit := [o] + body + [e];
    assert lit[1..|lit| - 1] == body;
    assert lit[|lit| - 1] == e;
  }

  /** Transcoding a literal whose interior is `a + b`, with `a` ending on a
      step boundary, gives the transcoded interiors of `a` and `b` side by
      side, whatever the delimiters `o` and `e`. */
  lemma TranscodeConcat(o: char, a: seq<char>, b: seq<char>, e: char)
    requires NoDanglingEscape(a)
    ensures Interior(Transcode([o] + (a + b) + [e]))
         == Interior(Transcode([o] + a + [e])) + Interior(Transcode([o] + b + [e]))
  {
    InteriorOfTranscode(o, a + b, e);
    InteriorOfTranscode(o, a, e);
    InteriorOfTranscode(o, b, e);
    ScanAppend(a, b, e);
  }

  /** One scan step `t` between two pieces `a` and `b` of an interior. */
  lemma StepInContext(a: seq<char>, t: seq<char>, b: seq<char>, close: char)
    requires NoDanglingEscape(a) && NoDanglingEscape(t)
    ensures Scan(a + t + b, close) == Scan(a, close) + Scan(t, close) + Scan(b, close)
  {
    AppendAssociative(a, t, b);
    ScanAppend(a, t + b, close);
    ScanAppend(t, b, close);
    AppendAssociative(Scan(a, close), Scan(t, close), Scan(b, close));
  }

  /** An escape Apex also needs survives: backslash and character are both
      emitted, and both are consumed. */
  lemma KeptEscape(a: seq<char>, c: char, b: seq<char>, close: char)
    requires NoDanglingEscape(a) && KeepsEscape(c)
    ensures Scan(a + [Backslash, c] + b, close) == Scan(a, close) + [Backslash, c] + Scan(b, close)
  {
    StepInContext(a, [Backslash, c], b, close);
  }

  /** Any other escape loses its backslash: only the escaped character is
      emitted, and both are consumed. */
  lemma DroppedEscape(a: seq<char>, c: char, b: seq<char>, close: char)
    requires NoDanglingEscape(a) && !KeepsEscape(c)
    ensures Scan(a + [Backslash, c] + b, close) == Scan(a, close) + [c] + Scan(b, close)
  {
    StepInContext(a, [Backslash, c], b, close);
  }

  /** An unescaped quote mark inside the literal is emitted as `\'`. */
  lemma UnescapedQuote(a: seq<char>, b: seq<char>, close: char)
    requires NoDanglingEscape(a)
    ensures Scan(a + [QuoteMark] + b, close) == Scan(a, close) + [Backslash, QuoteMark] + Scan(b, close)
  {
    StepInContext(a, [QuoteMark], b, close);
  }

  /** Every other unescaped character is copied as it is. */
  lemma PlainCopied(a: seq<char>, c: char, b: seq<char>, close: char)
    requires NoDanglingEscape(a) && c != Backslash && c != QuoteMark
    ensures Scan(a + [c] + b, close) == Scan(a, close) + [c] + Scan(b, close)
  {
    StepInContext(a, [c], b, close);
  }

  /** A backslash in the last interior position takes the closing delimiter
      as the character it escapes. */
  lemma TrailingBackslash(a: seq<char>, close: char)
    requires NoDanglingEscape(a)
    ensures Scan(a + [Backslash], close) == Scan(a, close) + EscapeImage(close)
  {
    ScanAppend(a, [Backslash], close);
  }

  /** A well-formed interior is left as it is by the scan. */
  lemma {:induction false} ScanKeepsWellFormed(s: seq<char>, close: char)
    requires WellFormed(s)
    ensures Scan(s, close) == s
    decreases |s|
  {
    if |s| == 0 {
    } else if s[0] == Backslash {
      ScanKeepsWellFormed(s[2..], close);
      assert s == [s[0], s[1]] + s[2..];
    } else {
      ScanKeepsWellFormed(s[1..], close);
      assert s == [s[0]] + s[1..];
    }
  }

  /** A quoted literal with a well-formed interior is its own translation. */
  lemma WellFormedIsFixed(body: seq<char>)
    requires WellFormed(body)
    ensures Transcode([QuoteMark] + body + [QuoteMark]) == [QuoteMark] + body + [QuoteMark]
  {
    var lit := [QuoteMark] + body + [QuoteMark];
    assert lit[1..|lit| - 1] == body;
    ScanKeepsWellFormed(body, QuoteMark);
    if |lit| <= 2 {
      assert body == [];
    }
  }

  /** Transcoding twice is transcoding once. */
  lemma TranscodeIdempotent(lit: seq<char>)
    ensures Transcode(Transcode(lit)) == Transcode(lit)
  {
    var r := Transcode(lit);
    assert r == [QuoteMark] + Interior(r) + [QuoteMark];
    WellFormedIsFixed(Interior(r));
  }

  /** In a well-formed interior every quote mark is escaped: it follows a
      backslash that itself begins an escape, since everything before that
      backslash splits into whole escapes and plain characters. So no quote
      mark is bare. */
  lemma {:induction false} WellFormedQuotesEscaped(s: seq<char>)
    requires WellFormed(s)
    ensures forall k :: 0 <= k < |s| && s[k] == QuoteMark ==>
      k > 0 && s[k - 1] == Backslash && NoDanglingEscape(s[..k - 1])
    decreases |s|
  {
    if |s| == 0 {
    } else if s[0] == Backslash {
      var rest := s[2..];
      WellFormedQuotesEscaped(rest);
      forall k | 2 <= k < |s| && s[k] == QuoteMark
        ensures s[k - 1] == Backslash && NoDanglingEscape(s[..k - 1])
      {
        assert rest[k - 2] == s[k];
        assert rest[k - 3] == s[k - 1];
        var prefix := s[..k - 1];
        assert prefix[0] == Backslash;
        assert prefix[2..] == rest[..k - 3];
      }
      assert s[1] != QuoteMark || NoDanglingEscape(s[..0]);
    } else {
      var rest := s[1..];
      WellFormedQuotesEscaped(rest);
      forall k | 1 <= k < |s| && s[k] == QuoteMark
        ensures k > 1 && s[k - 1] == Backslash && NoDanglingEscape(s[..k - 1])
      {
        assert rest[k - 1] == s[k];
        assert rest[k - 2] == s[k - 1];
        var prefix := s[..k - 1];
        assert prefix[0] == s[0];
        assert prefix[1..] == rest[..k - 2];
      }
    }
  }

  /** In a well-formed interior no backslash dangles. */
  lemma {:induction false} WellFormedHasNoDanglingEscape(s: seq<char>)
    requires WellFormed(s)
    ensures NoDanglingEscape(s)
    decreases |s|
  {
    if |s| == 0 {
    } else if s[0] == Backslash {
      WellFormedHasNoDanglingEscape(s[2..]);
    } else {
      WellFormedHasNoDanglingEscape(s[1..]);
    }
  }
}

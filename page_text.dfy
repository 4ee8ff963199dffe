/**
 * beautifulSoupToStr and the removal of 'Scheduled' that getStatus applies to every field:
 * the element's text is encoded to ASCII dropping what does not fit, the bytes object is
 * turned into its repr (b'...'), and the two leading characters and the closing quote are
 * cut off, so what remains is the body of the bytes literal, escapes included.
 */
module PageText {
  import opened Outcomes

  /** Characters bytes.__repr__ prints as themselves (when they are not a quote or a backslash). */
  predicate IsPrintable(c: char) {
    0x20 <= c as int < 0x7f
  }

  predicate AllPrintable(s: string) {
    forall i :: 0 <= i < |s| ==> IsPrintable(s[i])
  }

  predicate AllAscii(s: string) {
    forall i :: 0 <= i < |s| ==> s[i] as int < 0x80
  }

  /** text.encode('ascii', 'ignore'): the characters below 128, in order; each one is one byte. */
  function AsciiOnly(text: string): (b: string)
    ensures AllAscii(b) && |b| <= |text|
    ensures AllAscii(text) ==> b == text
  {
    if text == [] then []
    else if text[0] as int < 0x80 then [text[0]] + AsciiOnly(text[1..])
    else AsciiOnly(text[1..])
  }

  /** Every ASCII character of the text is kept as often as it occurs, and every other one is dropped. */
  lemma {:induction false} AsciiOnlyKeepsAscii(text: string)
    ensures forall c :: multiset(AsciiOnly(text))[c] == if c as int < 0x80 then multiset(text)[c] else 0
  {
    if text != [] {
      assert text == [text[0]] + text[1..];
      AsciiOnlyKeepsAscii(text[1..]);
    }
  }

  /** Dropping works character by character, so the kept characters stay in their order. */
  lemma {:induction false} AsciiOnlyAppend(a: string, b: string)
    ensures AsciiOnly(a + b) == AsciiOnly(a) + AsciiOnly(b)
  {
    if a == [] {
      assert a + b == b;
    } else {
      assert (a + b)[1..] == a[1..] + b;
      AsciiOnlyAppend(a[1..], b);
    }
  }

  /**
   * The quote bytes.__repr__ chooses: a double quote when the bytes hold ' but no ", else '.
   * The chosen quote occurs in the bytes, and so needs escaping, only when both quotes do.
   */
  function ReprQuote(b: string): (q: char)
    ensures IsQuote(q)
    ensures q in b ==> '\'' in b && '"' in b
  {
    if '\'' in b && '"' !in b then '"' else '\''
  }

  /** A lower-case hexadecimal digit, as in the \xhh escape. */
  function HexDigit(n: nat): (c: char)
    requires n < 16
    ensures IsPrintable(c) && c != '\\'
  {
    if n < 10 then ('0' as int + n) as char else ('a' as int + n - 10) as char
  }

  /** The value of a lower-case hexadecimal digit. */
  function HexValue(c: char): Option<nat> {
    if '0' <= c <= '9' then Some(c as int - '0' as int)
    else if 'a' <= c <= 'f' then Some(c as int - 'a' as int + 10)
    else None
  }

  predicate IsQuote(q: char) {
    q == '\'' || q == '"'
  }

  /** A byte bytes.__repr__ prints as itself under the given quote. */
  predicate IsPlain(c: char, quote: char) {
    IsPrintable(c) && c != quote && c != '\\'
  }

  /** How bytes.__repr__ prints one byte inside a literal delimited by quote. */
  function EscapedByte(c: char, quote: char): (e: string)
    requires c as int < 0x100 && IsQuote(quote)
    ensures 1 <= |e| <= 4 && AllPrintable(e)
    ensures |e| == 1 <==> IsPlain(c, quote)
    ensures IsPlain(c, quote) ==> e == [c]
  {
    if c == quote || c == '\\' then ['\\', c]
    else if c == '\t' then "\\t"
    else if c == '\n' then "\\n"
    else if c == '\r' then "\\r"
    else if c as int < 0x20 || c as int >= 0x7f then
      ['\\', 'x', HexDigit(c as int / 16), HexDigit(c as int % 16)]
    else [c]
  }

  /** The body of the bytes literal: every byte escaped in turn. */
  function EscapedBytes(b: string, quote: char): (r: string)
    requires AllAscii(b) && IsQuote(quote)
    ensures AllPrintable(r) && |r| >= |b|
  {
    if b == [] then []
    else EscapedByte(b[0], quote) + EscapedBytes(b[1..], quote)
  }

  /** str() of a bytes object: b, the quote, the escaped bytes, the quote. */
  function BytesRepr(b: string): (r: string)
    requires AllAscii(b)
    ensures |r| >= 3 && r[0] == 'b' && r[1] == ReprQuote(b) && r[|r| - 1] == ReprQuote(b)
  {
    var q := ReprQuote(b);
    ['b', q] + EscapedBytes(b, q) + [q]
  }

  /** beautifulSoupToStr of an element whose getText() is text: the repr with [2:-1] applied. */
  function SoupText(text: string): (r: string)
    ensures AllPrintable(r)
    ensures r == EscapedBytes(AsciiOnly(text), ReprQuote(AsciiOnly(text)))
  {
    var repr := BytesRepr(AsciiOnly(text));
    repr[2..|repr| - 1]
  }

  /** Reads the body of a bytes literal delimited by quote back into its bytes. */
  function Unescape(s: string, quote: char): (r: Option<string>)
    decreases |s|
  {
    if s == [] then Some([])
    else if s[0] != '\\' then
      if IsPlain(s[0], quote) then Prepend(s[0], Unescape(s[1..], quote)) else None
    else if |s| < 2 then None
    else if s[1] == quote || s[1] == '\\' then Prepend(s[1], Unescape(s[2..], quote))
    else if s[1] == 't' then Prepend('\t', Unescape(s[2..], quote))
    else if s[1] == 'n' then Prepend('\n', Unescape(s[2..], quote))
    else if s[1] == 'r' then Prepend('\r', Unescape(s[2..], quote))
    else if s[1] == 'x' && |s| >= 4 && HexValue(s[2]).Some? && HexValue(s[3]).Some? then
      Prepend((16 * HexValue(s[2]).value + HexValue(s[3]).value) as char, Unescape(s[4..], quote))
    else None
  }

  function Prepend(c: char, r: Option<string>): Option<string> {
    if r.Some? then Some([c] + r.value) else None
  }

  lemma HexDigitValue(n: nat)
    requires n < 16
    ensures HexValue(HexDigit(n)) == Some(n)
  {
  }

  /** Reading back one escaped byte consumes exactly its escape. */
  lemma UnescapeByte(c: char, quote: char, rest: string)
    requires c as int < 0x80 && IsQuote(quote)
    ensures Unescape(EscapedByte(c, quote) + rest, quote) == Prepend(c, Unescape(rest, quote))
  {
    var e := EscapedByte(c, quote);
    var s := e + rest;
    if |e| == 1 {
      assert s[1..] == rest;
    } else if |e| == 2 {
      assert s[2..] == rest;
    } else {
      HexDigitValue(c as int / 16);
      HexDigitValue(c as int % 16);
      assert s[4..] == rest;
    }
  }

  /** Reading the printed body back gives the bytes that were printed. */
  lemma {:induction false} UnescapeEscaped(b: string, quote: char)
    requires AllAscii(b) && IsQuote(quote)
    ensures Unescape(EscapedBytes(b, quote), quote) == Some(b)
    decreases |b|
  {
    if b != [] {
      UnescapeEscaped(b[1..], quote);
      UnescapeByte(b[0], quote, EscapedBytes(b[1..], quote));
      assert [b[0]] + b[1..] == b;
    }
  }

  /** The bytes object the soup text was printed from can be recovered from it. */
  lemma SoupTextRoundTrip(text: string)
    ensures Unescape(SoupText(text), ReprQuote(AsciiOnly(text))) == Some(AsciiOnly(text))
  {
    UnescapeEscaped(AsciiOnly(text), ReprQuote(AsciiOnly(text)));
  }

  /** The body is as long as the bytes only when every byte prints as itself. */
  lemma {:induction false} EscapedLength(b: string, quote: char)
    requires AllAscii(b) && IsQuote(quote)
    ensures |EscapedBytes(b, quote)| == |b| <==> forall i :: 0 <= i < |b| ==> IsPlain(b[i], quote)
    ensures (forall i :: 0 <= i < |b| ==> IsPlain(b[i], quote)) ==> EscapedBytes(b, quote) == b
    decreases |b|
  {
    if b != [] {
      EscapedLength(b[1..], quote);
      assert forall i :: 1 <= i < |b| ==> b[i] == b[1..][i - 1];
      assert [b[0]] + b[1..] == b;
    }
  }

  /**
   * The text comes out of beautifulSoupToStr unchanged exactly when it is printable ASCII
   * without a backslash and does not hold both kinds of quote.
   */
  lemma SoupTextUnchanged(text: string)
    ensures SoupText(text) == text <==>
      (AllPrintable(text) && '\\' !in text && !('\'' in text && '"' in text))
  {
    var b := AsciiOnly(text);
    var q := ReprQuote(b);
    EscapedLength(b, q);
    if SoupText(text) == text {
      assert AllAscii(text);
      assert b == text;
      assert forall i :: 0 <= i < |b| ==> IsPlain(b[i], q);
      assert '\\' !in text;
      assert !('\'' in text && '"' in text);
    }
    if AllPrintable(text) && '\\' !in text && !('\'' in text && '"' in text) {
      assert AllAscii(text);
      assert b == text;
      assert forall i :: 0 <= i < |b| ==> IsPlain(b[i], q);
    }
  }

  /** pat occurs in s at position i. */
  predicate OccursAt(s: string, pat: string, i: int) {
    0 <= i && i + |pat| <= |s| && s[i..i + |pat|] == pat
  }

  /**
   * str.replace(pat, ''): scanning from the left, each occurrence is removed and the scan
   * resumes after it, so occurrences never overlap.
   */
  function RemoveAll(s: string, pat: string): (r: string)
    requires |pat| > 0
    ensures |r| <= |s|
    decreases |s|
  {
    if |s| < |pat| then s
    else if s[..|pat|] == pat then RemoveAll(s[|pat|..], pat)
    else [s[0]] + RemoveAll(s[1..], pat)
  }

  /** Removal only deletes: what is left is a sub-multiset of the text. */
  lemma {:induction false} RemoveAllDeletes(s: string, pat: string)
    requires |pat| > 0
    ensures multiset(RemoveAll(s, pat)) <= multiset(s)
    decreases |s|
  {
    if |s| < |pat| {
    } else if s[..|pat|] == pat {
      RemoveAllDeletes(s[|pat|..], pat);
      assert s == s[..|pat|] + s[|pat|..];
    } else {
      RemoveAllDeletes(s[1..], pat);
      assert s == [s[0]] + s[1..];
    }
  }

  /** Removing leaves the text unchanged exactly when the pattern does not occur in it. */
  lemma {:induction false} RemoveAllUnchanged(s: string, pat: string)
    requires |pat| > 0
    ensures RemoveAll(s, pat) == s <==> forall i :: !OccursAt(s, pat, i)
    decreases |s|
  {
    if |s| < |pat| {
    } else if s[..|pat|] == pat {
      assert OccursAt(s, pat, 0);
      assert |RemoveAll(s[|pat|..], pat)| < |s|;
    } else {
      RemoveAllUnchanged(s[1..], pat);
      assert !OccursAt(s, pat, 0);
      var rest := RemoveAll(s[1..], pat);
      assert RemoveAll(s, pat) == [s[0]] + rest;
      assert [s[0]] + rest == s <==> rest == s[1..] by {
        if [s[0]] + rest == s {
          assert rest == ([s[0]] + rest)[1..];
        }
        if rest == s[1..] {
          assert [s[0]] + s[1..] == s;
        }
      }
      if forall i :: !OccursAt(s[1..], pat, i) {
        forall i
          ensures !OccursAt(s, pat, i)
        {
          if i >= 1 && i + |pat| <= |s| {
            assert s[i..i + |pat|] == s[1..][i - 1..i - 1 + |pat|];
            assert !OccursAt(s[1..], pat, i - 1);
          }
        }
      } else {
        var j :| OccursAt(s[1..], pat, j);
        assert s[j + 1..j + 1 + |pat|] == s[1..][j..j + |pat|];
        assert OccursAt(s, pat, j + 1);
      }
    }
  }

  const ScheduledWord := "Scheduled"

  /** A field as getStatus first normalises it: beautifulSoupToStr, then 'Scheduled' removed. */
  function FieldText(text: string): (r: string)
    ensures AllPrintable(r) && |r| <= |SoupText(text)|
  {
    var soup := SoupText(text);
    var r := RemoveAll(soup, ScheduledWord);
    RemoveAllDeletes(soup, ScheduledWord);
    assert forall i :: 0 <= i < |r| ==> r[i] in multiset(soup);
    r
  }

  /**
   * Text that cannot start the pattern is kept, the occurrence after it is removed, and the
   * scan resumes after that occurrence: every later occurrence is removed the same way.
   */
  lemma {:induction false} ScanResumesAfterPattern(a: string, pat: string, b: string)
    requires |pat| > 0
    requires forall j :: 0 <= j < |a| ==> !OccursAt(a + pat + b, pat, j)
    ensures RemoveAll(a + pat + b, pat) == a + RemoveAll(b, pat)
    decreases |a|
  {
    var t := a + pat + b;
    if a == [] {
      assert t[..|pat|] == pat && t[|pat|..] == b;
    } else {
      assert !OccursAt(t, pat, 0);
      assert t[..|pat|] != pat;
      assert t[1..] == a[1..] + pat + b;
      forall j | 0 <= j < |a[1..]|
        ensures !OccursAt(a[1..] + pat + b, pat, j)
      {
        assert !OccursAt(t, pat, j + 1);
        if j + |pat| <= |t[1..]| {
          assert t[1..][j..j + |pat|] == t[j + 1..j + 1 + |pat|];
        }
      }
      ScanResumesAfterPattern(a[1..], pat, b);
      assert [a[0]] + (a[1..] + RemoveAll(b, pat)) == a + RemoveAll(b, pat);
    }
  }

  /** A text without the pattern's first letter holds no occurrence before the pattern after it. */
  lemma NoEarlierOccurrence(a: string, pat: string, b: string)
    requires |pat| > 0 && pat[0] !in a
    ensures forall j :: 0 <= j < |a| ==> !OccursAt(a + pat + b, pat, j)
  {
    forall j | 0 <= j < |a|
      ensures !OccursAt(a + pat + b, pat, j)
    {
      var t := a + pat + b;
      assert t[j] == a[j] != pat[0];
      if j + |pat| <= |t| {
        assert t[j..j + |pat|][0] == t[j];
      }
    }
  }

  /** Every occurrence goes, also after a kept first letter: "SScheduledScheduled" leaves "S". */
  lemma KeptLetterThenWords()
    ensures RemoveAll("S" + ScheduledWord + ScheduledWord, ScheduledWord) == "S"
  {
    var t := "S" + ScheduledWord + ScheduledWord;
    assert t[1] != ScheduledWord[1];
    assert !OccursAt(t, ScheduledWord, 0);
    ScanResumesAfterPattern("S", ScheduledWord, ScheduledWord);
    ScanResumesAfterPattern([], ScheduledWord, []);
    assert [] + ScheduledWord + [] == ScheduledWord;
  }

  /** Every occurrence goes, not only the first: the pattern twice over leaves nothing. */
  lemma RepeatedPatternRemoved(pat: string)
    requires |pat| > 0
    ensures RemoveAll(pat + pat, pat) == []
  {
    ScanResumesAfterPattern([], pat, pat);
    assert [] + pat + pat == pat + pat;
    ScanResumesAfterPattern([], pat, []);
    assert [] + pat + [] == pat;
  }

  /** Text that cannot start the pattern is kept, and the pattern after it is removed. */
  lemma TrailingPatternRemoved(s: string, pat: string)
    requires |pat| > 0 && pat[0] !in s
    ensures RemoveAll(s + pat, pat) == s
  {
    NoEarlierOccurrence(s, pat, []);
    ScanResumesAfterPattern(s, pat, []);
    assert s + pat + [] == s + pat;
  }

  /**
   * A cell whose text ends in 'Scheduled' (after a printable text that needs no escape and has
   * no capital S) comes out as the text before the word, separating space included.
   */
  lemma ScheduledSuffixRemoved(s: string)
    requires AllPrintable(s) && '\\' !in s && !('\'' in s && '"' in s) && 'S' !in s
    ensures FieldText(s + ScheduledWord) == s
  {
    var text := s + ScheduledWord;
    assert forall i :: |s| <= i < |text| ==> text[i] == ScheduledWord[i - |s|];
    assert AllPrintable(text);
    assert '\\' !in text;
    assert '\'' !in ScheduledWord && '"' !in ScheduledWord;
    assert !('\'' in text && '"' in text);
    SoupTextUnchanged(text);
    TrailingPatternRemoved(s, ScheduledWord);
  }
}

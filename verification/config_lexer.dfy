/** Lexing shared by both revisions of the configuration reader: how the
    file is cut into lines by fgets, which lines are ignored, how the newer
    revision splits a line on ';', and how a value token is delimited and
    copied out of the line. */
module ConfigLexer {
  import opened Optional
  import opened CStrings
  import opened Variants

  /** Size of the line buffer handed to fgets and of the token buffer. */
  const MAX_LINE_LENGTH: nat := 256

  /** fgets (line, MAX_LINE_LENGTH, f) reads at most this many characters. */
  const FGETS_LIMIT: nat := MAX_LINE_LENGTH - 1

  /** A size_t wraps modulo 2^64. */
  const SIZE_MODULUS: nat := 0x1_0000_0000_0000_0000

  // ---------------------------------------------------------------- lines

  /** End of the characters one fgets call takes from `text`, scanning from
      i: it stops after a newline, at end of input or at the buffer limit. */
  function ChunkEnd(text: string, i: nat): (e: nat)
    requires i <= |text| && i <= FGETS_LIMIT
    ensures i <= e <= |text| && e <= FGETS_LIMIT
    ensures e > i || i == |text| || i == FGETS_LIMIT
    decreases FGETS_LIMIT - i
  {
    if i == |text| || i == FGETS_LIMIT then i
    else if text[i] == '\n' then i + 1
    else ChunkEnd(text, i + 1)
  }

  /** fgets stops at the first newline: none before the chunk's last
      character, and one there unless the input or the buffer ran out. */
  lemma {:induction false} ChunkEndStops(text: string, i: nat)
    requires i <= |text| && i <= FGETS_LIMIT
    ensures forall k :: i <= k < ChunkEnd(text, i) - 1 ==> text[k] != '\n'
    ensures var e := ChunkEnd(text, i); e < |text| && e < FGETS_LIMIT ==> e > 0 && text[e - 1] == '\n'
    decreases FGETS_LIMIT - i
  {
    if i < |text| && i < FGETS_LIMIT && text[i] != '\n' {
      ChunkEndStops(text, i + 1);
    }
  }

  /** The successive buffers fgets returns when reading `text`. A physical
      line longer than the buffer comes back in several pieces. */
  function Chunks(text: string): (r: seq<string>)
    decreases |text|
  {
    if |text| == 0 then []
    else
      var e := ChunkEnd(text, 0);
      [text[..e]] + Chunks(text[e..])
  }

  /** Every buffer fgets returns holds at least one character and at most
      the buffer's capacity. */
  lemma {:induction false} ChunksBounded(text: string)
    ensures forall k :: 0 <= k < |Chunks(text)| ==> 1 <= |Chunks(text)[k]| <= FGETS_LIMIT
    decreases |text|
  {
    if |text| > 0 {
      var e := ChunkEnd(text, 0);
      ChunksBounded(text[e..]);
      ChunksUnfoldAt(text, e);
    }
  }

  function Concat(ss: seq<string>): string
  {
    if |ss| == 0 then "" else ss[0] + Concat(ss[1..])
  }

  /** Reading a file chunk by chunk loses and invents nothing. */
  lemma {:induction false} ChunksCoverText(text: string)
    ensures Concat(Chunks(text)) == text
    decreases |text|
  {
    if |text| > 0 {
      var e := ChunkEnd(text, 0);
      ChunksCoverText(text[e..]);
      assert text[..e] + text[e..] == text;
    }
  }

  /** A newline is only ever the last character of a chunk. */
  lemma {:induction false} ChunksEndAtNewline(text: string)
    ensures forall c, k :: c in Chunks(text) && 0 <= k < |c| - 1 ==> c[k] != '\n'
    decreases |text|
  {
    if |text| > 0 {
      var e := ChunkEnd(text, 0);
      ChunkEndStops(text, 0);
      ChunksEndAtNewline(text[e..]);
      forall c, k | c in Chunks(text) && 0 <= k < |c| - 1
        ensures c[k] != '\n'
      {
        if c != text[..e] {
          assert c in Chunks(text[e..]);
        }
      }
    }
  }

  /** fgets restarts after a newline, so text that ends in a newline is read
      independently of what follows it. */
  lemma {:induction false} ChunksAppend(a: string, b: string)
    requires |a| > 0 && a[|a| - 1] == '\n'
    ensures Chunks(a + b) == Chunks(a) + Chunks(b)
    decreases |a|
  {
    var e := ChunksAppendStep(a, b);
    var t := a[e..];
    if |t| > 0 {
      assert t[|t| - 1] == a[|a| - 1];
      ChunksAppend(t, b);
      ChunksAppendCons(a[..e], Chunks(t), Chunks(b), Chunks(t + b));
    } else {
      ChunksAppendLast(a, b, e);
    }
  }

  /** One fgets call reads the same first chunk from a and from a + b. */
  lemma ChunksAppendStep(a: string, b: string) returns (e: nat)
    requires |a| > 0 && a[|a| - 1] == '\n'
    ensures 0 < e <= |a|
    ensures Chunks(a) == [a[..e]] + Chunks(a[e..])
    ensures Chunks(a + b) == [a[..e]] + Chunks(a[e..] + b)
  {
    e := ChunkEnd(a, 0);
    ChunksUnfoldAt(a, e);
    ChunksAppendHead(a, b, e);
  }

  lemma ChunksAppendHead(a: string, b: string, e: nat)
    requires |a| > 0 && a[|a| - 1] == '\n'
    requires e == ChunkEnd(a, 0)
    ensures Chunks(a + b) == [a[..e]] + Chunks(a[e..] + b)
  {
    var ab := a + b;
    ChunkEndAppend(a, b, 0);
    ChunksUnfoldAt(ab, e);
    SlicesOfAppend(a, b, e);
  }

  lemma ChunksUnfoldAt(text: string, e: nat)
    requires |text| > 0 && e == ChunkEnd(text, 0)
    ensures Chunks(text) == [text[..e]] + Chunks(text[e..])
  {
  }

  lemma SlicesOfAppend(a: string, b: string, e: nat)
    requires e <= |a|
    ensures (a + b)[..e] == a[..e] && (a + b)[e..] == a[e..] + b
  {
  }

  lemma ChunksAppendCons(x: string, ct: seq<string>, cb: seq<string>, ctb: seq<string>)
    requires ctb == ct + cb
    ensures [x] + ctb == ([x] + ct) + cb
  {
  }

  lemma ChunksAppendLast(a: string, b: string, e: nat)
    requires e == |a|
    requires Chunks(a) == [a[..e]] + Chunks(a[e..])
    requires Chunks(a + b) == [a[..e]] + Chunks(a[e..] + b)
    ensures Chunks(a + b) == Chunks(a) + Chunks(b)
  {
    assert a[e..] + b == b;
  }

  lemma {:induction false} ChunkEndAppend(a: string, b: string, i: nat)
    requires |a| > 0 && a[|a| - 1] == '\n'
    requires i < |a| && i <= FGETS_LIMIT
    ensures ChunkEnd(a + b, i) == ChunkEnd(a, i)
    decreases FGETS_LIMIT - i
  {
    if i < FGETS_LIMIT && a[i] != '\n' {
      assert i + 1 < |a|;
      ChunkEndAppend(a, b, i + 1);
    }
  }

  /** What strlen sees of a buffer: the characters before the first NUL. */
  function CText(s: string): (r: string)
    ensures r <= s
    ensures forall k :: 0 <= k < |r| ==> r[k] != '\0'
    ensures |r| < |s| ==> s[|r|] == '\0'
  {
    if |s| == 0 || s[0] == '\0' then "" else [s[0]] + CText(s[1..])
  }

  /** A buffer from fgets with its trailing newline, if any, removed. */
  function LineText(chunk: string): (line: string)
    ensures |line| <= |chunk|
    ensures line <= chunk
  {
    var c := CText(chunk);
    if |c| > 0 && c[|c| - 1] == '\n' then c[..|c| - 1] else c
  }

  /** The lines the reading loop works on, in file order. */
  function Lines(text: string): (r: seq<string>)
    ensures |r| == |Chunks(text)|
    ensures forall k :: 0 <= k < |r| ==> |r[k]| <= FGETS_LIMIT
  {
    ChunksBounded(text);
    MapLineText(Chunks(text))
  }

  function MapLineText(chunks: seq<string>): (r: seq<string>)
    requires forall k :: 0 <= k < |chunks| ==> |chunks[k]| <= FGETS_LIMIT
    ensures |r| == |chunks|
    ensures forall k :: 0 <= k < |r| ==> r[k] == LineText(chunks[k])
    ensures forall k :: 0 <= k < |r| ==> |r[k]| <= FGETS_LIMIT
  {
    if |chunks| == 0 then [] else [LineText(chunks[0])] + MapLineText(chunks[1..])
  }

  /** Blank lines and lines whose first non-blank character is '#' are
      skipped by both readers. */
  predicate Ignored(line: string)
  {
    var i := SkipSpace(line, 0);
    i == |line| || line[i] == '#'
  }

  // ------------------------------------------------------------ sub-lines

  /** The first c at or after i, or the end of s (strchr, with the end of
      the string standing for "not found"). */
  function NextChar(s: string, i: nat, c: char): (k: nat)
    requires i <= |s|
    ensures i <= k <= |s|
    ensures forall j :: i <= j < k ==> s[j] != c
    ensures k < |s| ==> s[k] == c
    decreases |s| - i
  {
    if i == |s| || s[i] == c then i else NextChar(s, i + 1, c)
  }

  /** The newer reader's split of a line on ';' (without regard to quotes):
      each piece is parsed on its own; a ';' at the very end does not start
      another, empty, piece. */
  function SubLines(s: string): (r: seq<string>)
    ensures forall k, j :: 0 <= k < |r| && 0 <= j < |r[k]| ==> r[k][j] != ';'
    decreases |s|
  {
    if |s| == 0 then []
    else
      var k := NextChar(s, 0, ';');
      if k < |s| then [s[..k]] + SubLines(s[k + 1..]) else [s]
  }

  /** Pieces joined with ';' between them. */
  function JoinSemicolon(ss: seq<string>): string
  {
    if |ss| == 0 then ""
    else if |ss| == 1 then ss[0]
    else ss[0] + ";" + JoinSemicolon(ss[1..])
  }

  /** Splitting on ';' is undone by joining with ';', except that a final ';'
      leaves no piece behind. */
  lemma {:induction false} SubLinesJoin(s: string)
    ensures JoinSemicolon(SubLines(s)) + (if |s| > 0 && s[|s| - 1] == ';' then ";" else "") == s
    decreases |s|
  {
    if |s| > 0 {
      var k := NextChar(s, 0, ';');
      if k < |s| {
        var rest := s[k + 1..];
        SubLinesUnfoldAt(s, k);
        SubLinesJoin(rest);
        JoinCons(s[..k], SubLines(rest));
        SplitAtSemicolon(s, k);
      } else {
        assert SubLines(s) == [s];
      }
    }
  }

  lemma SubLinesUnfoldAt(s: string, k: nat)
    requires k == NextChar(s, 0, ';') < |s|
    ensures SubLines(s) == [s[..k]] + SubLines(s[k + 1..])
  {
  }

  /** Cutting s at its semicolon k leaves the text before and after it, and
      s ends in ';' exactly when the remainder is empty or does. */
  lemma SplitAtSemicolon(s: string, k: nat)
    requires k < |s| && s[k] == ';'
    ensures s == s[..k] + ";" + s[k + 1..]
    ensures var rest := s[k + 1..];
            (s[|s| - 1] == ';') == (|rest| == 0 || rest[|rest| - 1] == ';')
  {
  }

  lemma JoinCons(a: string, l: seq<string>)
    ensures JoinSemicolon([a] + l) == if |l| == 0 then a else a + ";" + JoinSemicolon(l)
  {
    assert ([a] + l)[1..] == l;
  }

  // --------------------------------------------------------------- tokens

  /** A character that ends an unquoted token. */
  predicate EndsBareToken(c: char)
  {
    c == '~' || c == '|' || IsSpace(c)
  }

  function BareEnd(s: string, i: nat): (k: nat)
    requires i <= |s|
    ensures i <= k <= |s|
    ensures forall j :: i <= j < k ==> !EndsBareToken(s[j])
    ensures k < |s| ==> EndsBareToken(s[k])
    decreases |s| - i
  {
    if i == |s| || EndsBareToken(s[i]) then i else BareEnd(s, i + 1)
  }

  /** End of the value token starting at `start`: a quoted token runs to and
      includes its closing quote, or to the end of the line when there is
      none; any other token runs to white space, '~', '|' or the end. */
  function TokenEnd(s: string, start: nat): (e: nat)
    requires start <= |s|
    ensures start <= e <= |s|
    ensures start < |s| && s[start] == '"' ==> e > start
  {
    if start < |s| && s[start] == '"' then
      var close := NextChar(s, start + 1, '"');
      if close < |s| then close + 1 else close
    else BareEnd(s, start)
  }

  /** The token copied into the 256-byte `item` buffer by extract. */
  function Item(s: string, start: nat): (item: string)
    requires start <= |s|
    ensures |item| <= FGETS_LIMIT
    ensures item <= s[start..TokenEnd(s, start)]
    ensures TokenEnd(s, start) - start <= FGETS_LIMIT ==> item == s[start..TokenEnd(s, start)]
    ensures TokenEnd(s, start) - start > FGETS_LIMIT ==> |item| == FGETS_LIMIT
  {
    Extract(s[start..], TokenEnd(s, start) - start, MAX_LINE_LENGTH)
  }

  /** An item that opens with a double quote is a quoted string. */
  predicate Quoted(item: string)
  {
    |item| > 0 && item[0] == '"'
  }

  /** What the quoted-string branch of parse_value and scan_value does with
      an item: the bytes copied into the 41-byte sval, a rejection, or a copy
      whose count has wrapped around as a size_t. */
  datatype QuotedOutcome = Copied(text: string) | TooBig | Overrun(count: nat)

  /** The quoted branch as written: n = strlen (item) - 2 is checked only
      against the upper bound, so an item that is a lone quote gives n = -1,
      which strncpy receives as 2^64 - 1. */
  function QuotedPayloadAsWritten(item: string): (q: QuotedOutcome)
    requires |item| >= 1 && item[0] == '"'
    ensures q.Copied? ==> |q.text| <= MAX_STRING_SIZE
    ensures q.Overrun? <==> |item| == 1
  {
    var n: int := |item| - 2;
    if n > MAX_STRING_SIZE as int then TooBig
    else if n < 0 then Overrun(n + SIZE_MODULUS)
    else Copied(item[1..1 + n])
  }

  /** The quoted branch with the lower bound checked too: the characters
      between the opening quote and the last character, rejected when there
      are more than 40 of them or when the item is a lone quote. */
  function QuotedPayload(item: string): (r: Option<string>)
    requires |item| >= 1 && item[0] == '"'
    ensures r.Some? ==> |item| >= 2 && r.value == item[1..|item| - 1]
    ensures r.Some? ==> |r.value| <= MAX_STRING_SIZE
    ensures r.None? <==> |item| < 2 || |item| - 2 > MAX_STRING_SIZE
  {
    if |item| < 2 || |item| - 2 > MAX_STRING_SIZE then None
    else Some(item[1..|item| - 1])
  }

  /** A quote that is the last character of a line is a token on its own;
      the code as written then asks strncpy for 2^64 - 1 bytes into a
      41-byte buffer, where the corrected branch rejects the value. */
  lemma LoneQuoteOverruns(s: string)
    requires |s| > 0 && s[|s| - 1] == '"'
    ensures Item(s, |s| - 1) == "\""
    ensures QuotedPayloadAsWritten(Item(s, |s| - 1)) == Overrun(SIZE_MODULUS - 1)
    ensures SIZE_MODULUS - 1 > STRING_BUFFER_SIZE
    ensures QuotedPayload(Item(s, |s| - 1)) == None
  {
    assert s[|s| - 1..] == "\"";
    assert NextChar(s, |s|, '"') == |s|;
  }

  /** Away from the lone quote the corrected branch behaves exactly as
      written. */
  lemma QuotedPayloadAgrees(item: string)
    requires |item| >= 2 && item[0] == '"'
    ensures QuotedPayloadAsWritten(item) == Copied(item[1..|item| - 1]) <==> QuotedPayload(item).Some?
    ensures QuotedPayloadAsWritten(item) == TooBig <==> QuotedPayload(item).None?
  {
  }

  /** A quoted token with no quote inside and a closing quote yields exactly
      the characters between the quotes. */
  lemma QuotedTokenText(s: string, start: nat, text: string)
    requires start + |text| + 2 <= |s|
    requires s[start..start + |text| + 2] == "\"" + text + "\""
    requires forall k :: 0 <= k < |text| ==> text[k] != '"'
    requires |text| + 2 <= FGETS_LIMIT
    ensures TokenEnd(s, start) == start + |text| + 2
    ensures Item(s, start) == "\"" + text + "\""
  {
    assert s[start] == '"';
    var close := NextChar(s, start + 1, '"');
    forall j | start + 1 <= j < start + 1 + |text|
      ensures s[j] != '"'
    {
      assert s[j] == text[j - start - 1];
    }
    assert s[start + 1 + |text|] == '"';
    assert close == start + 1 + |text|;
    assert s[start..][..|text| + 2] == s[start..start + |text| + 2];
  }
}

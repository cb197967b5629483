/** `stringTokenizer`: splits a string into tokens separated by runs of
    delimiter characters, with a variant that also cuts out two-byte GB2312
    (Chinese) characters.

    A C++ `std::string` is a sequence of `char`; here it is a Dafny `string`
    whose characters stand for those bytes, each character's code being the
    byte (below 256, see IsBytes). The iterator `_currPos` into `_buffer` is
    the index `cur`.

    The pure functions first (what a call returns, as a function of the buffer,
    the delimiters and the cursor), then the class, whose methods run the loops
    of the C++ code and are proved against those functions. */
module Tokenizer {
  import opened StdString

  /** `DEFAULT_DELIMITER`: space, horizontal tab, vertical tab, newline,
      carriage return and form feed. */
  const DefaultDelimiter: string := " \t\U{B}\n\r\U{C}"

  lemma DefaultDelimiterChars()
    ensures DefaultDelimiter == [' ', '\t', 11 as char, '\n', '\r', 12 as char]
    ensures forall c :: c in DefaultDelimiter <==> c as int in {32, 9, 11, 10, 13, 12}
  {
  }

  /** Every character of `s` stands for a byte: its code is below 256. */
  predicate IsBytes(s: string) {
    forall k :: 0 <= k < |s| ==> s[k] as int < 256
  }

  // ---------------------------------------------------------------------------
  // Tokens by ASCII delimiters

  /** No character of `s` is a delimiter. */
  predicate NoDelims(s: string, d: string) {
    forall k :: 0 <= k < |s| ==> s[k] !in d
  }

  /** Where skipping delimiters from `i` stops (SkipDelimsStops: the first
      position at or after `i` that holds no delimiter, or the end). */
  function SkipDelims(buf: string, d: string, i: nat): (p: nat)
    requires i <= |buf|
    ensures i <= p <= |buf|
    decreases |buf| - i
  {
    if i == |buf| || buf[i] !in d then i else SkipDelims(buf, d, i + 1)
  }

  lemma {:induction false} SkipDelimsStops(buf: string, d: string, i: nat)
    requires i <= |buf|
    ensures var p := SkipDelims(buf, d, i);
            (forall k :: i <= k < p ==> buf[k] in d) && (p == |buf| || buf[p] !in d)
    decreases |buf| - i
  {
    if i < |buf| && buf[i] in d {
      SkipDelimsStops(buf, d, i + 1);
    }
  }

  /** Skipping delimiters a second time goes nowhere. */
  lemma SkipDelimsAgain(buf: string, d: string, i: nat)
    requires i <= |buf|
    ensures SkipDelims(buf, d, SkipDelims(buf, d, i)) == SkipDelims(buf, d, i)
  {
    SkipDelimsStops(buf, d, i);
  }

  /** Where a token starting at `i` ends (RunEndStops: the first delimiter at
      or after `i`, or the end). */
  function RunEnd(buf: string, d: string, i: nat): (e: nat)
    requires i <= |buf|
    ensures i <= e <= |buf|
    decreases |buf| - i
  {
    if i == |buf| || buf[i] in d then i else RunEnd(buf, d, i + 1)
  }

  lemma {:induction false} RunEndStops(buf: string, d: string, i: nat)
    requires i <= |buf|
    ensures var e := RunEnd(buf, d, i);
            (forall k :: i <= k < e ==> buf[k] !in d) && (e == |buf| || buf[e] in d)
    decreases |buf| - i
  {
    if i < |buf| && buf[i] !in d {
      RunEndStops(buf, d, i + 1);
    }
  }

  /** What `next()` returns on a non-empty buffer with the cursor at `i`, and
      where it leaves the cursor (NextTokenSpec says what that token is). */
  function NextToken(buf: string, d: string, i: nat): (r: (string, nat))
    requires i <= |buf|
    ensures i + |r.0| <= r.1 <= |buf|
  {
    var p := SkipDelims(buf, d, i);
    var e := RunEnd(buf, d, p);
    (buf[p..e], e)
  }

  /** `next()` skips the delimiters under the cursor and returns the longest run
      of non-delimiters that follows: the cursor only moves forward, the token is
      the stretch of the buffer just before the new cursor, everything skipped
      before it is a delimiter, and the cursor stops at the end or on a
      delimiter. The token is empty only when the cursor reaches the end. */
  lemma NextTokenSpec(buf: string, d: string, i: nat)
    requires i <= |buf|
    ensures var r := NextToken(buf, d, i); var t, j := r.0, r.1;
            i + |t| <= j <= |buf| && t == buf[j - |t| .. j] &&
            (forall k :: i <= k < j - |t| ==> buf[k] in d) &&
            NoDelims(t, d) &&
            (j == |buf| || buf[j] in d) &&
            (t == [] ==> j == |buf|)
  {
    var p := SkipDelims(buf, d, i);
    SkipDelimsStops(buf, d, i);
    RunEndStops(buf, d, p);
  }

  /** The tokens `split()` collects from the cursor `i`: `next()` until it
      returns the empty string. */
  function Tokens(buf: string, d: string, i: nat): (ts: seq<string>)
    requires i <= |buf|
    ensures i == |buf| ==> ts == []
    decreases |buf| - i
  {
    var (t, j) := NextToken(buf, d, i);
    if t == [] then [] else [t] + Tokens(buf, d, j)
  }

  /** Each token takes at least one character, so there are at most as many
      tokens as characters left. */
  lemma {:induction false} TokensCount(buf: string, d: string, i: nat)
    requires i <= |buf|
    ensures |Tokens(buf, d, i)| <= |buf| - i
    decreases |buf| - i
  {
    var t, j := NextToken(buf, d, i).0, NextToken(buf, d, i).1;
    if t != [] {
      TokensCount(buf, d, j);
    }
  }

  /** Every token is non-empty and free of delimiters. */
  predicate ProperTokens(ts: seq<string>, d: string) {
    forall k :: 0 <= k < |ts| ==> ts[k] != [] && NoDelims(ts[k], d)
  }

  /** Every token `split()` returns is non-empty and free of delimiters. */
  lemma {:induction false} TokensSpec(buf: string, d: string, i: nat)
    requires i <= |buf|
    ensures ProperTokens(Tokens(buf, d, i), d)
    decreases |buf| - i
  {
    var t, j := NextToken(buf, d, i).0, NextToken(buf, d, i).1;
    NextTokenSpec(buf, d, i);
    if t != [] {
      TokensSpec(buf, d, j);
      var ts, rest := Tokens(buf, d, i), Tokens(buf, d, j);
      assert ts == [t] + rest;
      forall k | 0 <= k < |ts| ensures ts[k] != [] && NoDelims(ts[k], d) {
        if k > 0 {
          assert ts[k] == rest[k - 1];
        }
      }
    }
  }

  /** The characters of `s` that are not delimiters, in order. */
  function RemoveDelims(s: string, d: string): string {
    if s == [] then [] else (if s[0] in d then [] else [s[0]]) + RemoveDelims(s[1..], d)
  }

  /** The tokens written one after the other. */
  function Flatten(ts: seq<string>): string {
    if ts == [] then [] else ts[0] + Flatten(ts[1..])
  }

  /** Delimiters contribute nothing. */
  lemma {:induction false} RemoveDelimsSkip(buf: string, d: string, i: nat, p: nat)
    requires i <= p <= |buf|
    requires forall k :: i <= k < p ==> buf[k] in d
    ensures RemoveDelims(buf[i..], d) == RemoveDelims(buf[p..], d)
    decreases p - i
  {
    if i < p {
      assert buf[i..][1..] == buf[i + 1..];
      RemoveDelimsSkip(buf, d, i + 1, p);
    }
  }

  /** A run without delimiters is kept as it is. */
  lemma {:induction false} RemoveDelimsKeep(buf: string, d: string, p: nat, e: nat)
    requires p <= e <= |buf|
    requires forall k :: p <= k < e ==> buf[k] !in d
    ensures RemoveDelims(buf[p..], d) == buf[p..e] + RemoveDelims(buf[e..], d)
    decreases e - p
  {
    if p < e {
      assert buf[p..][1..] == buf[p + 1..];
      RemoveDelimsKeep(buf, d, p + 1, e);
      assert buf[p..e] == [buf[p]] + buf[p + 1..e];
    }
  }

  /** What `split()` collects, written one after the other, is the rest of the
      buffer with every delimiter removed: no character is lost, none is added
      and the order is kept. */
  lemma {:induction false} SplitConcat(buf: string, d: string, i: nat)
    requires i <= |buf|
    ensures Flatten(Tokens(buf, d, i)) == RemoveDelims(buf[i..], d)
    decreases |buf| - i
  {
    var p := SkipDelims(buf, d, i);
    var e := RunEnd(buf, d, p);
    SkipDelimsStops(buf, d, i);
    RunEndStops(buf, d, p);
    RemoveDelimsSkip(buf, d, i, p);
    RemoveDelimsKeep(buf, d, p, e);
    if p == e {
      assert buf[e..] == [];
    } else {
      SplitConcat(buf, d, e);
      var ts := Tokens(buf, d, i);
      assert ts == [buf[p..e]] + Tokens(buf, d, e);
      assert ts[1..] == Tokens(buf, d, e);
    }
  }

  /** A non-empty token is followed by the tokens from where it ends. */
  lemma TokensStep(buf: string, d: string, i: nat)
    requires i <= |buf| && NextToken(buf, d, i).0 != []
    ensures Tokens(buf, d, i) == [NextToken(buf, d, i).0] + Tokens(buf, d, NextToken(buf, d, i).1)
  {
  }

  /** Once `next()` has returned the empty string the cursor is at the end, and
      every further call returns the empty string again without moving it. */
  lemma NextTokenAtEnd(buf: string, d: string, i: nat)
    requires i <= |buf| && NextToken(buf, d, i).0 == []
    ensures NextToken(buf, d, i).1 == |buf|
    ensures NextToken(buf, d, NextToken(buf, d, i).1) == ([], |buf|)
  {
    NextTokenSpec(buf, d, i);
  }

  /** `split()` returns no token exactly when nothing but delimiters is left. */
  lemma {:induction false} TokensCover(buf: string, d: string, i: nat)
    requires i <= |buf|
    ensures Tokens(buf, d, i) == [] <==> RemoveDelims(buf[i..], d) == []
  {
    SplitConcat(buf, d, i);
    var ts := Tokens(buf, d, i);
    if ts != [] {
      assert Flatten(ts) == ts[0] + Flatten(ts[1..]);
      assert |Flatten(ts)| >= |ts[0]| > 0;
    }
  }

  // ---------------------------------------------------------------------------
  // Tokens with GB2312 characters

  /** A lead byte of a two-byte GB2312 character: 0xA2 .. 0xFD. */
  predicate IsLeadByte(c: char): (b: bool)
    ensures b ==> 0x80 <= c as int < 0x100
  {
    0xA1 < c as int < 0xFE
  }

  /** The value of a byte read as a signed `char` (two's complement). */
  function SignedChar(b: int): int
    requires 0 <= b < 256
  {
    if b < 128 then b else b - 256
  }

  /** `isChineseCharacter` compares `c > char(0xa1) && c < char(0xfe)`; where
      `char` is signed both sides are negative for the high bytes, and the test
      still picks exactly the lead bytes, as it does where `char` is unsigned. */
  lemma SignedLeadByte(c: char)
    requires c as int < 256
    ensures SignedChar(c as int) > SignedChar(0xA1) && SignedChar(c as int) < SignedChar(0xFE)
            <==> IsLeadByte(c)
  {
  }

  /** Where the ASCII part of a `nextGB2312()` token ends: at the first
      delimiter or lead byte at or after `i`, or the end. */
  function RunEndGB(buf: string, d: string, i: nat): (e: nat)
    requires i <= |buf|
    ensures i <= e <= |buf|
    decreases |buf| - i
  {
    if i == |buf| || buf[i] in d || IsLeadByte(buf[i]) then i else RunEndGB(buf, d, i + 1)
  }

  /** RunEndGB stops at the first delimiter or lead byte. */
  lemma {:induction false} RunEndGBStops(buf: string, d: string, i: nat)
    requires i <= |buf|
    ensures var e := RunEndGB(buf, d, i);
            (forall k :: i <= k < e ==> buf[k] !in d && !IsLeadByte(buf[k])) &&
            (e == |buf| || buf[e] in d || IsLeadByte(buf[e]))
    decreases |buf| - i
  {
    if i < |buf| && buf[i] !in d && !IsLeadByte(buf[i]) {
      RunEndGBStops(buf, d, i + 1);
    }
  }

  /** `nextGB2312()` reads the byte after a lead byte that starts a token; the
      C++ code is undefined when that lead byte is the last byte of the buffer. */
  predicate LeadNotLast(buf: string, d: string, i: nat): (b: bool)
    requires i <= |buf|
    ensures |buf| == 0 || !IsLeadByte(buf[|buf| - 1]) ==> b
  {
    var p := SkipDelims(buf, d, i);
    !(p + 1 == |buf| && IsLeadByte(buf[p]))
  }

  /** What `nextGB2312()` returns on a non-empty buffer with the cursor at `i`,
      and where it leaves the cursor. After the leading delimiters the token is
      either a lead byte with the byte after it (one Chinese character), or the
      longest run of bytes that are neither delimiters nor lead bytes. */
  function NextGB(buf: string, d: string, i: nat): (r: (string, nat))
    requires i <= |buf| && LeadNotLast(buf, d, i)
    ensures i + |r.0| <= r.1 <= |buf|
  {
    var p := SkipDelims(buf, d, i);
    if p < |buf| && IsLeadByte(buf[p]) then (buf[p..p + 2], p + 2)
    else
      var e := RunEndGB(buf, d, p);
      (buf[p..e], e)
  }

  /** The kinds of token `nextGB2312()` returns. The cursor only moves forward,
      over delimiters and then over the token. The token is empty only at the
      end of the buffer; a token starting with a lead byte is that byte and the
      one after it; any other token is a longest run of bytes that are neither
      delimiters nor lead bytes. */
  lemma NextGBKinds(buf: string, d: string, i: nat)
    requires i <= |buf| && LeadNotLast(buf, d, i)
    ensures var r := NextGB(buf, d, i); var t, j := r.0, r.1;
            i + |t| <= j <= |buf| && t == buf[j - |t| .. j] &&
            (forall k :: i <= k < j - |t| ==> buf[k] in d) &&
            (t == [] ==> j == |buf|) &&
            (t != [] ==> t[0] !in d) &&
            (t != [] && IsLeadByte(t[0]) ==> |t| == 2) &&
            (t != [] && !IsLeadByte(t[0]) ==>
               (forall k :: 0 <= k < |t| ==> t[k] !in d && !IsLeadByte(t[k])) &&
               (j == |buf| || buf[j] in d || IsLeadByte(buf[j])))
  {
    SkipDelimsStops(buf, d, i);
    RunEndGBStops(buf, d, SkipDelims(buf, d, i));
  }

  lemma {:induction false} RunEndGBNoLead(buf: string, d: string, i: nat)
    requires i <= |buf|
    requires forall k :: i <= k < |buf| ==> !IsLeadByte(buf[k])
    ensures RunEndGB(buf, d, i) == RunEnd(buf, d, i)
    decreases |buf| - i
  {
    if i < |buf| && buf[i] !in d {
      RunEndGBNoLead(buf, d, i + 1);
    }
  }

  /** On text without lead bytes `nextGB2312()` and `next()` agree. */
  lemma NextGBNoLead(buf: string, d: string, i: nat)
    requires i <= |buf|
    requires forall k :: i <= k < |buf| ==> !IsLeadByte(buf[k])
    ensures LeadNotLast(buf, d, i)
    ensures NextGB(buf, d, i) == NextToken(buf, d, i)
  {
    RunEndGBNoLead(buf, d, SkipDelims(buf, d, i));
  }

  // ---------------------------------------------------------------------------
  // The class

  class StringTokenizer {
    /** `_buffer`, the input string. */
    var buffer: string
    /** `_token`, the last token built. */
    var token: string
    /** `_delimiter`, the delimiter characters. */
    var delimiter: string
    /** `_currPos`, as an index into `buffer`. */
    var cur: nat

    /** The cursor lies within the buffer, and the delimiter string is shorter
        than `npos` (a 64-bit `size_t`), so that `find` can answer. */
    ghost predicate Valid()
      reads this
    {
      cur <= |buffer| && |delimiter| < NPOS && IsBytes(buffer) && IsBytes(delimiter)
    }

    /** `stringTokenizer()`: empty buffer and token, default delimiters. */
    constructor Empty()
      ensures Valid()
      ensures buffer == [] && token == [] && delimiter == DefaultDelimiter && cur == 0
    {
      buffer, token, delimiter, cur := [], [], DefaultDelimiter, 0;
    }

    /** `stringTokenizer(str, delimiter = DEFAULT_DELIMITER)`. */
    constructor (str: string, delimiter: string := DefaultDelimiter)
      requires |delimiter| < NPOS && IsBytes(str) && IsBytes(delimiter)
      ensures Valid()
      ensures buffer == str && token == [] && this.delimiter == delimiter && cur == 0
    {
      buffer, token, this.delimiter, cur := str, [], delimiter, 0;
    }

    /** `set(str, delimiter = DEFAULT_DELIMITER)`: new buffer and delimiters,
        cursor back to the start; the token is kept. */
    method Set(str: string, delimiter: string := DefaultDelimiter)
      requires |delimiter| < NPOS && IsBytes(str) && IsBytes(delimiter)
      modifies this`buffer, this`delimiter, this`cur
      ensures Valid()
      ensures buffer == str && this.delimiter == delimiter && cur == 0
      ensures token == old(token)
    {
      buffer := str;
      this.delimiter := delimiter;
      cur := 0;
    }

    /** `setString(str)`: new buffer, cursor back to the start, delimiters kept. */
    method SetString(str: string)
      requires Valid() && IsBytes(str)
      modifies this`buffer, this`cur
      ensures Valid()
      ensures buffer == str && cur == 0
      ensures delimiter == old(delimiter) && token == old(token)
    {
      buffer := str;
      cur := 0;
    }

    /** `setDelimiter(delimiter)`: only the delimiters change; buffer and cursor stay. */
    method SetDelimiter(delimiter: string)
      requires Valid() && |delimiter| < NPOS && IsBytes(delimiter)
      modifies this`delimiter
      ensures Valid()
      ensures this.delimiter == delimiter
      ensures buffer == old(buffer) && cur == old(cur) && token == old(token)
    {
      this.delimiter := delimiter;
    }

    /** `addDelimiter(delimiter)`: the delimiters grow by those given, so a
        character is a delimiter afterwards iff it was one or is among the new ones. */
    method AddDelimiter(delimiter: string)
      requires Valid() && |this.delimiter| + |delimiter| < NPOS && IsBytes(delimiter)
      modifies this`delimiter
      ensures Valid()
      ensures this.delimiter == old(this.delimiter) + delimiter
      ensures forall c :: IsDelimiter(c) <==> old(IsDelimiter(c)) || c in delimiter
    {
      this.delimiter := this.delimiter + delimiter;
    }

    /** `isDelimiter(c)`: `_delimiter.find(c) != npos`. */
    function IsDelimiter(c: char): (b: bool)
      requires |delimiter| < NPOS
      reads this
      ensures b <==> c in delimiter
    {
      Find(delimiter, c) != NPOS
    }

    /** `isChineseCharacter(c)`: the C++ code tests the character under the
        cursor, not its argument; it holds for the bytes 0xA2 .. 0xFD. */
    function IsChineseCharacter(c: char): (b: bool)
      requires cur < |buffer|
      reads this
      ensures b <==> 0xA2 <= buffer[cur] as int <= 0xFD
    {
      IsLeadByte(buffer[cur])
    }

    /** `skipDelimiter()`: moves the cursor past the delimiters under it. */
    method SkipDelimiter()
      requires Valid()
      modifies this`cur
      ensures Valid()
      ensures cur == SkipDelims(buffer, delimiter, old(cur))
    {
      while cur != |buffer| && IsDelimiter(buffer[cur])
        invariant old(cur) <= cur <= |buffer|
        invariant SkipDelims(buffer, delimiter, cur) == SkipDelims(buffer, delimiter, old(cur))
        decreases |buffer| - cur
      {
        cur := cur + 1;
      }
    }

    /** `next()`: on an empty buffer the empty string, with token and cursor
        untouched; otherwise the token and cursor NextToken gives, the token
        also kept in `token`. */
    method Next() returns (t: string)
      requires Valid()
      modifies this`token, this`cur
      ensures Valid()
      ensures |buffer| == 0 ==> t == [] && token == old(token) && cur == old(cur)
      ensures |buffer| > 0 ==> (t, cur) == NextToken(buffer, delimiter, old(cur)) && token == t
    {
      if |buffer| == 0 {
        return [];
      }
      token := [];
      SkipDelimiter();
      ghost var p := cur;
      while cur != |buffer| && !IsDelimiter(buffer[cur])
        invariant p <= cur <= |buffer|
        invariant token == buffer[p..cur]
        invariant RunEnd(buffer, delimiter, cur) == RunEnd(buffer, delimiter, p)
        decreases |buffer| - cur
      {
        token := token + [buffer[cur]];
        cur := cur + 1;
      }
      t := token;
    }

    /** `nextGB2312()`: like `next()`, but a lead byte ends the token before it,
        and a lead byte that starts a token is returned with the byte after it. */
    method NextGB2312() returns (t: string)
      requires Valid() && LeadNotLast(buffer, delimiter, cur)
      modifies this`token, this`cur
      ensures Valid()
      ensures |buffer| == 0 ==> t == [] && token == old(token) && cur == old(cur)
      ensures |buffer| > 0 ==> (t, cur) == NextGB(buffer, delimiter, old(cur)) && token == t
    {
      if |buffer| == 0 {
        return [];
      }
      token := [];
      SkipDelimiter();
      SkipDelimsStops(buffer, delimiter, old(cur));
      SkipDelimsAgain(buffer, delimiter, old(cur));
      ScanGB2312();
      t := token;
    }

    /** The loop of `nextGB2312()`, entered with an empty token and the cursor
        past the leading delimiters: ASCII bytes are appended up to a delimiter
        or a lead byte, and a lead byte met first is appended with the byte
        after it. */
    method ScanGB2312()
      requires Valid() && token == [] && LeadNotLast(buffer, delimiter, cur)
      requires cur == |buffer| || buffer[cur] !in delimiter
      modifies this`token, this`cur
      ensures Valid()
      ensures (token, cur) == NextGB(buffer, delimiter, old(cur))
    {
      ghost var p := cur;
      while cur != |buffer| && !IsDelimiter(buffer[cur])
        invariant p <= cur <= |buffer|
        invariant token == buffer[p..cur]
        invariant p < cur ==> !IsLeadByte(buffer[p])
        invariant RunEndGB(buffer, delimiter, cur) == RunEndGB(buffer, delimiter, p)
        decreases |buffer| - cur
      {
        if IsChineseCharacter(buffer[cur]) {
          if token != [] {
            break;
          }
          token := token + [buffer[cur]];
          cur := cur + 1;
          token := token + [buffer[cur]];
          cur := cur + 1;
          assert token == buffer[p..cur];
          break;
        } else {
          token := token + [buffer[cur]];
          cur := cur + 1;
        }
      }
    }

    /** `split()`: the tokens `next()` returns from the cursor on, until it
        returns the empty string; the cursor ends at the end of the buffer. */
    method Split() returns (tokens: seq<string>)
      requires Valid()
      modifies this`token, this`cur
      ensures Valid()
      ensures tokens == Tokens(buffer, delimiter, old(cur))
      ensures cur == |buffer|
      ensures token == if |buffer| == 0 then old(token) else []
    {
      tokens := [];
      while true
        invariant Valid()
        invariant old(cur) <= cur
        invariant tokens + Tokens(buffer, delimiter, cur) == Tokens(buffer, delimiter, old(cur))
        invariant |buffer| == 0 ==> token == old(token)
        decreases |buffer| - cur
      {
        ghost var before := cur;
        var t := Next();
        NextTokenSpec(buffer, delimiter, before);
        if t == [] {
          break;
        }
        TokensStep(buffer, delimiter, before);
        tokens := tokens + [t];
      }
    }
  }
}

/** The text of an error response: its captured bytes, decoded leniently and marked when cut. */
module ErrorMessages {
  import opened Text
  import opened Utf8
  import opened ResponseBody

  const REPLACEMENT: char := '\U{FFFD}'
  const BYTE_ORDER_MARK: char := '\U{FEFF}'

  // ---- Lenient decoding

  /** How many bytes a first byte announces; none when it cannot begin a character. */
  function Width(first: Byte): nat {
    if first < 0x80 then 1
    else if 0xC2 <= first < 0xE0 then 2
    else if 0xE0 <= first < 0xF0 then 3
    else if 0xF0 <= first < 0xF5 then 4
    else 0
  }

  /** Whether the second byte can follow the first: no overlong form, no surrogate, nothing too large. */
  predicate CanFollow(first: Byte, second: Byte) {
    && 0x80 <= second < 0xC0
    && (first == 0xE0 ==> 0xA0 <= second)
    && (first == 0xED ==> second < 0xA0)
    && (first == 0xF0 ==> 0x90 <= second)
    && (first == 0xF4 ==> second < 0x90)
  }

  /** How far the scanner gets in the character at the front before it is complete or cannot be one. */
  function Scanned(bytes: seq<Byte>): (n: nat)
    requires bytes != []
    ensures 1 <= n <= |bytes|
  {
    var width := Width(bytes[0]);
    if width < 2 || |bytes| < 2 || !CanFollow(bytes[0], bytes[1]) then 1
    else if width == 2 || !Continuation(bytes, 2) then 2
    else if width == 3 || !Continuation(bytes, 3) then 3
    else 4
  }

  /** Strict decoding accepts exactly what the scanner completes. */
  lemma DecodesIffScanned(bytes: seq<Byte>)
    requires bytes != []
    ensures DecodeChar(bytes).Some? <==> Scanned(bytes) == Width(bytes[0])
    ensures DecodeChar(bytes).Some? ==> DecodeChar(bytes).value.1 == Scanned(bytes)
  {
  }

  /** `String::from_utf8_lossy`: what was scanned of a broken character becomes one replacement. */
  function Lossy(bytes: seq<Byte>): string {
    if bytes == [] then []
    else
      match DecodeChar(bytes)
      case Some((c, width)) => [c] + Lossy(bytes[width..])
      case None => [REPLACEMENT] + Lossy(bytes[Scanned(bytes)..])
  }

  /** The characters of a text whose bytes fit in the limit. */
  function Whole(text: string, limit: nat): (shown: string)
    ensures shown <= text
  {
    if text == [] || |EncodeChar(text[0])| > limit then []
    else [text[0]] + Whole(text[1..], limit - |EncodeChar(text[0])|)
  }

  /** The start of a character is one broken character. */
  lemma CutCharacter(c: char, n: nat)
    requires 0 < n < |EncodeChar(c)|
    ensures DecodeChar(EncodeChar(c)[..n]).None? && Scanned(EncodeChar(c)[..n]) == n
  {
    var bytes, cut := EncodeChar(c), EncodeChar(c)[..n];
    assert forall i | 0 <= i < n :: cut[i] == bytes[i];
    StartsAsScanned(c);
    DecodesIffScanned(cut);
  }

  lemma StartsAsScanned(c: char)
    ensures var bytes := EncodeChar(c);
            && Width(bytes[0]) == |bytes|
            && (|bytes| > 1 ==> CanFollow(bytes[0], bytes[1]))
            && (|bytes| > 2 ==> Continuation(bytes, 2))
            && (|bytes| > 3 ==> Continuation(bytes, 3))
  {
    var n := c as int;
    assert n < 0xD800 || 0xE000 <= n < 0x11_0000;
  }

  /** What a cut leaves: whole characters, and one replacement if it fell inside a character. */
  function Cut(text: string, limit: nat): string {
    var shown := Whole(text, limit);
    if limit < |Encode(text)| && |Encode(shown)| < limit then shown + [REPLACEMENT] else shown
  }

  /** Cutting the bytes of a text anywhere harms at most the character at the cut. */
  lemma {:induction false} LossyOfCut(text: string, limit: nat)
    requires limit <= |Encode(text)|
    ensures Lossy(Encode(text)[..limit]) == Cut(text, limit)
    decreases |text|
  {
    if text != [] {
      var head, tail := EncodeChar(text[0]), Encode(text[1..]);
      if |head| <= limit {
        var rest := limit - |head|;
        assert (head + tail)[..limit] == head + tail[..rest];
        LossyOfChar(text[0], tail[..rest]);
        LossyOfCut(text[1..], rest);
        CutCons(text, limit);
      } else if limit > 0 {
        assert (head + tail)[..limit] == head[..limit];
        CutCharacter(text[0], limit);
        assert head[..limit][limit..] == [];
      }
    }
  }

  lemma LossyOfChar(c: char, tail: seq<Byte>)
    ensures Lossy(EncodeChar(c) + tail) == [c] + Lossy(tail)
  {
    DecodeEncodeChar(c, tail);
    assert (EncodeChar(c) + tail)[|EncodeChar(c)|..] == tail;
  }

  lemma CutCons(text: string, limit: nat)
    requires text != [] && |EncodeChar(text[0])| <= limit
    ensures Cut(text, limit) == [text[0]] + Cut(text[1..], limit - |EncodeChar(text[0])|)
  {
    var rest := Whole(text[1..], limit - |EncodeChar(text[0])|);
    assert ([text[0]] + rest)[1..] == rest;
    AppendAssociates([text[0]], rest, [REPLACEMENT]);
  }

  lemma {:induction false} WholeOfAll(text: string, limit: nat)
    requires |Encode(text)| <= limit
    ensures Whole(text, limit) == text
    decreases |text|
  {
    if text != [] {
      WholeOfAll(text[1..], limit - |EncodeChar(text[0])|);
      assert text == [text[0]] + text[1..];
    }
  }

  /** A text that is not cut decodes to itself. */
  lemma LossyOfAll(text: string)
    ensures Lossy(Encode(text)) == text
  {
    LossyOfCut(text, |Encode(text)|);
    assert Encode(text)[..|Encode(text)|] == Encode(text);
    WholeOfAll(text, |Encode(text)|);
  }

  // ---- The message

  function Digit(n: nat): char
    requires n < 10
  {
    ('0' as int + n) as char
  }

  function Decimal(n: nat): string {
    if n < 10 then [Digit(n)] else Decimal(n / 10) + [Digit(n % 10)]
  }

  function Notice(limit: nat): string {
    "\n[response body truncated at " + Decimal(limit) + " bytes]"
  }

  function WithoutMark(bytes: seq<Byte>): seq<Byte> {
    if EncodeChar(BYTE_ORDER_MARK) <= bytes then bytes[|EncodeChar(BYTE_ORDER_MARK)|..] else bytes
  }

  function Message(body: seq<Byte>, truncated: bool, limit: nat): string {
    Lossy(WithoutMark(body)) + (if truncated then Notice(limit) else [])
  }

  method ReadErrorMessage(chunks: seq<Chunk>, limit: nat) returns (r: Result<string, BodyError>)
    ensures r == match Captured(chunks, limit)
                 case Err(error) => Err(error)
                 case Ok((body, truncated)) => Ok(Message(body, truncated, limit))
  {
    var captured := ReadErrorBody(chunks, limit);
    if captured.Err? {
      return Err(captured.error);
    }
    var (body, truncated) := captured.value;
    var mark := EncodeChar(BYTE_ORDER_MARK);
    if mark <= body {
      body := body[|mark|..];
    }
    var message := Lossy(body);
    AppendEmpty(message);
    if truncated {
      message := message + Notice(limit);
    }
    return Ok(message);
  }

  /** The text without a leading byte-order mark. */
  function Unmarked(text: string): string {
    if text != [] && text[0] == BYTE_ORDER_MARK then text[1..] else text
  }

  lemma MarkIsFirst(text: string, limit: nat)
    requires limit <= |Encode(text)|
    ensures EncodeChar(BYTE_ORDER_MARK) <= Encode(text)[..limit] <==>
            text != [] && text[0] == BYTE_ORDER_MARK && |EncodeChar(BYTE_ORDER_MARK)| <= limit
  {
    var mark := EncodeChar(BYTE_ORDER_MARK);
    if mark <= Encode(text)[..limit] {
      var bytes := Encode(text);
      assert bytes == mark + bytes[|mark|..];
      DecodeEncodeChar(BYTE_ORDER_MARK, bytes[|mark|..]);
      DecodeEncodeChar(text[0], Encode(text[1..]));
    }
    if text != [] && text[0] == BYTE_ORDER_MARK && |mark| <= limit {
      assert Encode(text)[..limit][..|mark|] == mark;
    }
  }

  lemma LossyWithoutMark(text: string, limit: nat)
    requires limit <= |Encode(text)|
    ensures Lossy(WithoutMark(Encode(text)[..limit])) == Unmarked(Cut(text, limit))
  {
    var mark, body := EncodeChar(BYTE_ORDER_MARK), Encode(text)[..limit];
    MarkIsFirst(text, limit);
    LossyOfCut(text, limit);
    if mark <= body {
      var tail := Encode(text[1..])[..limit - |mark|];
      assert body == mark + tail;
      assert body[|mark|..] == tail;
      LossyOfChar(BYTE_ORDER_MARK, tail);
    } else {
      CutIsUnmarked(text, limit);
    }
  }

  lemma CutIsUnmarked(text: string, limit: nat)
    requires !(text != [] && text[0] == BYTE_ORDER_MARK && |EncodeChar(BYTE_ORDER_MARK)| <= limit)
    ensures Unmarked(Cut(text, limit)) == Cut(text, limit)
  {
    if text != [] && |EncodeChar(text[0])| <= limit {
      CutCons(text, limit);
    }
  }

  /**
   * The message of a well-formed body, however it was chunked: without its byte-order mark, the whole
   * text if it fits; otherwise the characters that fit, at most one replacement, and the notice.
   */
  lemma MessageOfText(text: string, chunks: seq<Chunk>, limit: nat)
    requires Received(chunks) == Encode(text) && !Breaks(chunks)
    ensures var captured := Captured(chunks, limit);
            && captured.Ok?
            && Message(captured.value.0, captured.value.1, limit) ==
               if |Encode(text)| <= limit then Unmarked(text) else Unmarked(Cut(text, limit)) + Notice(limit)
  {
    var bytes := Encode(text);
    if |bytes| <= limit {
      assert bytes[..|bytes|] == bytes;
      LossyWithoutMark(text, |bytes|);
      WholeOfAll(text, |bytes|);
      AppendEmpty(Unmarked(text));
    } else {
      LossyWithoutMark(text, limit);
    }
  }

  // ---- Broken characters inside a text

  lemma FirstByteStartsCharacter(text: string)
    requires text != ""
    ensures Encode(text) != [] && !(0x80 <= Encode(text)[0] < 0xC0)
  {
    StartsAsScanned(text[0]);
  }

  lemma ScannedBeforeText(c: char, n: nat, text: string)
    requires 0 < n < |EncodeChar(c)|
    ensures var bytes := EncodeChar(c)[..n] + Encode(text);
            DecodeChar(bytes).None? && Scanned(bytes) == n
  {
    var bytes := EncodeChar(c)[..n] + Encode(text);
    assert forall i | 0 <= i < n :: bytes[i] == EncodeChar(c)[i];
    StartsAsScanned(c);
    if text != "" {
      FirstByteStartsCharacter(text);
      assert bytes[n] == Encode(text)[0];
    }
    DecodesIffScanned(bytes);
  }

  /** A broken character costs one replacement, and the text after it is read as it stands. */
  lemma BrokenThenText(c: char, n: nat, text: string)
    requires 0 < n < |EncodeChar(c)|
    ensures Lossy(EncodeChar(c)[..n] + Encode(text)) == ['\U{FFFD}'] + text
  {
    ScannedBeforeText(c, n, text);
    LossyOfAll(text);
    assert (EncodeChar(c)[..n] + Encode(text))[n..] == Encode(text);
  }

  // ---- The fixed texts

  lemma MarkIs()
    ensures EncodeChar(BYTE_ORDER_MARK) == [0xEF, 0xBB, 0xBF] && EncodeChar(REPLACEMENT) == [0xEF, 0xBF, 0xBD]
  {
  }

  /** Reading the digits of a number back. */
  function ReadDecimal(s: string): int {
    if s == [] then 0 else ReadDecimal(s[..|s| - 1]) * 10 + (Last(s) as int - 0x30)
  }

  lemma {:induction false} DecimalIs(n: nat)
    ensures ReadDecimal(Decimal(n)) == n && (|Decimal(n)| > 1 ==> Decimal(n)[0] != '0')
  {
    if n < 10 {
      assert [Digit(n)][..0] == [];
    } else {
      DecimalIs(n / 10);
      assert Decimal(n)[..|Decimal(n)| - 1] == Decimal(n / 10);
      DecimalStart(n / 10);
    }
  }

  lemma {:induction false} DecimalStart(n: nat)
    requires n > 0
    ensures |Decimal(n)| > 0 && Decimal(n)[0] != '0'
  {
    if n >= 10 {
      DecimalStart(n / 10);
    }
  }

  lemma NoticeIs(limit: nat)
    ensures exists digits ::
              ReadDecimal(digits) == limit && Notice(limit) == "\n[response body truncated at " + digits + " bytes]"
  {
    DecimalIs(limit);
  }
}

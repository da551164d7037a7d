/** Reading a response body within a byte limit, chunk by chunk. */
module ResponseBody {
  import opened Text
  import Utf8

  type Byte = Utf8.Byte

  datatype Chunk = Data(bytes: seq<Byte>) | Broken

  datatype BodyError = TooLarge | Transport

  /** Everything that arrives before the stream ends or breaks. */
  function Received(chunks: seq<Chunk>): seq<Byte> {
    if chunks == [] || chunks[0].Broken? then [] else chunks[0].bytes + Received(chunks[1..])
  }

  predicate Breaks(chunks: seq<Chunk>) {
    exists i | 0 <= i < |chunks| :: chunks[i].Broken?
  }

  /** A complete body, or the reason there is none. */
  function Complete(declared: Option<nat>, chunks: seq<Chunk>, maxBytes: nat): Result<seq<Byte>, BodyError> {
    if declared.Some? && declared.value > maxBytes then Err(TooLarge)
    else if |Received(chunks)| > maxBytes then Err(TooLarge)
    else if Breaks(chunks) then Err(Transport)
    else Ok(Received(chunks))
  }

  /** The captured prefix of an error body and whether more followed. */
  function Captured(chunks: seq<Chunk>, limit: nat): Result<(seq<Byte>, bool), BodyError> {
    if |Received(chunks)| > limit then Ok((Received(chunks)[..limit], true))
    else if Breaks(chunks) then Err(Transport)
    else Ok((Received(chunks), false))
  }

  lemma {:induction false} ReceivedPrefix(chunks: seq<Chunk>, i: nat)
    requires i <= |chunks| && forall k | 0 <= k < i :: chunks[k].Data?
    ensures Received(chunks) == Received(chunks[..i]) + Received(chunks[i..])
  {
    if i == 0 {
      assert chunks[0..] == chunks;
    } else {
      assert chunks[..i][1..] == chunks[1..][..i - 1];
      assert chunks[1..][i - 1..] == chunks[i..];
      ReceivedPrefix(chunks[1..], i - 1);
      AppendAssociates(chunks[0].bytes, Received(chunks[1..][..i - 1]), Received(chunks[i..]));
    }
  }

  lemma ReceivedSnoc(chunks: seq<Chunk>, i: nat)
    requires i < |chunks| && forall k | 0 <= k <= i :: chunks[k].Data?
    ensures Received(chunks[..i + 1]) == Received(chunks[..i]) + chunks[i].bytes
  {
    var more := chunks[..i + 1];
    ReceivedPrefix(more, i);
    assert more[..i] == chunks[..i] && more[i..] == [chunks[i]];
    assert Received([chunks[i]]) == chunks[i].bytes + Received([chunks[i]][1..]);
    AppendEmpty(chunks[i].bytes);
  }

  /** The space left is computed before it is compared, so it must never be negative. */
  method ReadResponseBody(declared: Option<nat>, chunks: seq<Chunk>, maxBytes: nat)
    returns (r: Result<seq<Byte>, BodyError>)
    ensures r == Complete(declared, chunks, maxBytes)
  {
    if declared.Some? && declared.value > maxBytes {
      return Err(TooLarge);
    }
    var body: seq<Byte> := [];
    for i := 0 to |chunks|
      invariant forall k | 0 <= k < i :: chunks[k].Data?
      invariant body == Received(chunks[..i]) && |body| <= maxBytes
    {
      ReceivedPrefix(chunks, i);
      if chunks[i].Broken? {
        return Err(Transport);
      }
      var remaining: nat := maxBytes - |body|;
      if |chunks[i].bytes| > remaining {
        return Err(TooLarge);
      }
      ReceivedSnoc(chunks, i);
      body := body + chunks[i].bytes;
    }
    assert chunks[..|chunks|] == chunks;
    return Ok(body);
  }

  method ReadErrorBody(chunks: seq<Chunk>, limit: nat) returns (r: Result<(seq<Byte>, bool), BodyError>)
    ensures r == Captured(chunks, limit)
  {
    var body: seq<Byte> := [];
    for i := 0 to |chunks|
      invariant forall k | 0 <= k < i :: chunks[k].Data?
      invariant body == Received(chunks[..i]) && |body| <= limit
    {
      ReceivedPrefix(chunks, i);
      if chunks[i].Broken? {
        return Err(Transport);
      }
      var remaining: nat := limit - |body|;
      var taken := if |chunks[i].bytes| < remaining then |chunks[i].bytes| else remaining;
      body := body + chunks[i].bytes[..taken];
      if |chunks[i].bytes| > remaining {
        CutChunk(chunks, i, limit);
        return Ok((body, true));
      }
      ReceivedSnoc(chunks, i);
    }
    assert chunks[..|chunks|] == chunks;
    return Ok((body, false));
  }

  /** The chunk that crosses the limit is cut exactly at it. */
  lemma CutChunk(chunks: seq<Chunk>, i: nat, limit: nat)
    requires i < |chunks| && forall k | 0 <= k <= i :: chunks[k].Data?
    requires |Received(chunks[..i])| <= limit < |Received(chunks[..i])| + |chunks[i].bytes|
    ensures var before := Received(chunks[..i]);
            |Received(chunks)| > limit && Received(chunks)[..limit] == before + chunks[i].bytes[..limit - |before|]
  {
    ReceivedPrefix(chunks, i + 1);
    ReceivedSnoc(chunks, i);
  }

  /** Splitting one chunk in two, anywhere, changes neither reader's answer. */
  lemma ChunkingIsInvisible(before: seq<Chunk>, a: seq<Byte>, b: seq<Byte>, after: seq<Chunk>,
                            declared: Option<nat>, limit: nat)
    ensures var whole, parts := before + [Data(a + b)] + after, before + [Data(a), Data(b)] + after;
            && Complete(declared, whole, limit) == Complete(declared, parts, limit)
            && Captured(whole, limit) == Captured(parts, limit)
  {
    var whole, parts := before + [Data(a + b)] + after, before + [Data(a), Data(b)] + after;
    SplitChunkReceived(before, a, b, after);
    BreaksAppend(before, [Data(a + b)]);
    BreaksAppend(before + [Data(a + b)], after);
    BreaksAppend(before, [Data(a), Data(b)]);
    BreaksAppend(before + [Data(a), Data(b)], after);
  }

  lemma BreaksAppend(a: seq<Chunk>, b: seq<Chunk>)
    ensures Breaks(a + b) <==> Breaks(a) || Breaks(b)
  {
    assert forall i | 0 <= i < |a| :: (a + b)[i] == a[i];
    assert forall i | 0 <= i < |b| :: (a + b)[|a| + i] == b[i];
  }

  lemma {:induction false} SplitChunkReceived(before: seq<Chunk>, a: seq<Byte>, b: seq<Byte>, after: seq<Chunk>)
    ensures Received(before + [Data(a + b)] + after) == Received(before + [Data(a), Data(b)] + after)
  {
    var whole, parts := before + [Data(a + b)] + after, before + [Data(a), Data(b)] + after;
    if before == [] {
      assert whole[1..] == after && parts[1..] == [Data(b)] + after && parts[1..][1..] == after;
      AppendAssociates(a, b, Received(after));
    } else if before[0].Data? {
      SplitChunkReceived(before[1..], a, b, after);
      assert whole[1..] == before[1..] + [Data(a + b)] + after;
      assert parts[1..] == before[1..] + [Data(a), Data(b)] + after;
    }
  }

  // ---- The answers, from the stream alone

  /** Data before the end, in order; nothing after a break. */
  lemma ReceivedAppend(a: seq<Chunk>, b: seq<Chunk>, bytes: seq<Byte>)
    ensures !Breaks(a) ==> Received(a + b) == Received(a) + Received(b)
    ensures Breaks(a) ==> Received(a + b) == Received(a)
    ensures Received([Data(bytes)]) == bytes && Received([Broken]) == []
  {
    assert [Data(bytes)][1..] == [];
    AppendEmpty(bytes);
    ReceivedConcat(a, b);
  }

  lemma {:induction false} ReceivedConcat(a: seq<Chunk>, b: seq<Chunk>)
    ensures Received(a + b) == Received(a) + (if Breaks(a) then [] else Received(b))
  {
    if a == [] {
      AppendEmpty(b);
      AppendEmpty(Received(b));
    } else {
      TailOfAppend(a, b);
      BreaksAppend([a[0]], a[1..]);
      assert a == [a[0]] + a[1..];
      if a[0].Broken? {
        assert [a[0]][0].Broken?;
      } else {
        assert !Breaks([a[0]]);
        ReceivedConcat(a[1..], b);
        AppendAssociates(a[0].bytes, Received(a[1..]), if Breaks(a[1..]) then [] else Received(b));
      }
    }
  }

  /** A body is returned exactly when it is all there and within the limit; the error says which failed. */
  lemma CompleteIff(declared: Option<nat>, chunks: seq<Chunk>, maxBytes: nat, body: seq<Byte>)
    ensures var r := Complete(declared, chunks, maxBytes);
            var fits := |Received(chunks)| <= maxBytes && (declared.None? || declared.value <= maxBytes);
            && (r == Ok(body) <==> fits && body == Received(chunks) && forall i | 0 <= i < |chunks| :: chunks[i].Data?)
            && (r == Err(TooLarge) <==> !fits)
            && (r == Err(Transport) <==> fits && exists i | 0 <= i < |chunks| :: chunks[i].Broken?)
  {
  }
}

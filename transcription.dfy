/** The transcript assembler of `transcribe_audio_offline` (app.py:94-119)
    and the whole chunk-then-recognise pipeline (app.py:91-119).

    The recognition service is an oracle `recognise`: given the ordinal of a
    request and the request itself, it answers with one of the three
    outcomes the source distinguishes.  The progress widget and the service
    are observed through two logs the methods return: the percentages passed
    to `update_progress_bar`, and the requests sent to the service. */
module Transcription {
  import opened Chunker
  import opened Text

  /** What `recognize_google` does for one chunk: returns text, raises
      `UnknownValueError`, or raises `RequestError`. */
  datatype Outcome = Ok(text: string) | NoMatch | ReqError

  datatype Option<T> = None | Some(value: T)

  /** `sr.AudioData(chunk, sample_rate, sample_width)` sent with a language. */
  datatype Request = Request(frameData: Chunk, sampleRate: nat, sampleWidth: nat, language: string)

  const Language: string := "en-US"

  /** The text recorded for a chunk in which no speech was recognised,
      without and with its separator. */
  const InaudibleMark: string := "[inaudível]"
  const Placeholder: string := InaudibleMark + " "

  /** The request built for one chunk (app.py:99-101). */
  function AudioRequest(c: Chunk): Request
  {
    Request(c, SampleRate, SampleWidth, Language)
  }

  function Payloads(calls: seq<Request>): seq<Chunk>
  {
    seq(|calls|, j requires 0 <= j < |calls| => calls[j].frameData)
  }

  /** The reply the service gives to the request for each chunk. */
  function Replies(chunks: seq<Chunk>, recognise: (nat, Request) -> Outcome): seq<Outcome>
  {
    seq(|chunks|, i requires 0 <= i < |chunks| => recognise(i, AudioRequest(chunks[i])))
  }

  predicate NoFatal(rs: seq<Outcome>)
  {
    forall i :: 0 <= i < |rs| ==> !rs[i].ReqError?
  }

  /** The position of the first `RequestError`, or |rs| when there is none. */
  function FirstError(rs: seq<Outcome>): (k: nat)
    ensures k <= |rs|
    ensures NoFatal(rs[..k])
    ensures k < |rs| ==> rs[k].ReqError?
    ensures k == |rs| <==> NoFatal(rs)
  {
    if rs == [] || rs[0].ReqError? then 0
    else
      var k := 1 + FirstError(rs[1..]);
      assert forall i :: 1 <= i < k ==> rs[..k][i] == rs[1..][..k - 1][i - 1];
      k
  }

  /** What one non-fatal chunk adds to the accumulator (app.py:102, 104). */
  function Fragment(o: Outcome): (f: string)
    requires !o.ReqError?
  {
    match o
    case Ok(part) => part + " "
    case NoMatch => Placeholder
  }

  /** Every fragment ends with the separating space, and a recognised
      chunk's fragment is its text followed by that space. */
  lemma FragmentShape(o: Outcome)
    requires !o.ReqError?
    ensures |Fragment(o)| > 0 && Fragment(o)[|Fragment(o)| - 1] == ' '
    ensures o.Ok? ==> Fragment(o)[..|Fragment(o)| - 1] == o.text
  {
    if o.Ok? {
      assert Fragment(o) == o.text + " ";
    }
  }

  function Fragments(rs: seq<Outcome>): seq<string>
    requires NoFatal(rs)
  {
    seq(|rs|, i requires 0 <= i < |rs| => Fragment(rs[i]))
  }

  /** The value `update_progress_bar` receives after chunk i of n (app.py:109),
      with integer truncation. */
  function Progress(i: nat, n: nat): nat
    requires i < n
  {
    (i + 1) * 100 / n
  }

  /** The progress values emitted after the first k of n chunks. */
  function ProgressLog(k: nat, n: nat): seq<nat>
    requires k <= n
  {
    seq(k, i requires 0 <= i < k => Progress(i, n))
  }

  /** The assembler loop (app.py:94-110, 119).  It sends the chunks to the
      service in order; on the first `RequestError`, at position k, it stops
      at once and yields None, having sent k + 1 requests and emitted k
      progress values; otherwise it yields the stripped concatenation of the
      fragments and has emitted one progress value per chunk. */
  method Transcribe(chunks: seq<Chunk>, recognise: (nat, Request) -> Outcome)
    returns (result: Option<string>, progress: seq<nat>, calls: seq<Request>)
    ensures |calls| == Min(FirstError(Replies(chunks, recognise)) + 1, |chunks|)
    ensures forall j :: 0 <= j < |calls| ==> calls[j] == AudioRequest(chunks[j])
    ensures progress == ProgressLog(FirstError(Replies(chunks, recognise)), |chunks|)
    ensures FirstError(Replies(chunks, recognise)) < |chunks| ==> result == None
    ensures FirstError(Replies(chunks, recognise)) == |chunks| ==>
      result == Some(Strip(Flatten(Fragments(Replies(chunks, recognise)))))
  {
    ghost var rs := Replies(chunks, recognise);
    var text := "";
    progress := [];
    calls := [];
    for i := 0 to |chunks|
      invariant |calls| == i && forall j :: 0 <= j < i ==> calls[j] == AudioRequest(chunks[j])
      invariant NoFatal(rs[..i])
      invariant progress == ProgressLog(i, |chunks|)
      invariant text == Flatten(Fragments(rs[..i]))
    {
      var request := AudioRequest(chunks[i]);
      RequestsStep(calls, chunks, i);
      calls := calls + [request];
      var reply := recognise(i, request);
      assert reply == rs[i];
      match reply {
        case Ok(part) =>
          text := text + (part + " ");
        case NoMatch =>
          text := text + Placeholder;
        case ReqError =>
          FirstErrorAt(rs, i);
          return None, progress, calls;
      }
      AccumulateStep(rs, i);
      ProgressLogStep(i, |chunks|);
      progress := progress + [Progress(i, |chunks|)];
    }
    assert rs[..|chunks|] == rs;
    FirstErrorNone(rs);
    assert Min(|chunks| + 1, |chunks|) == |calls|;
    result := Some(Strip(text));
  }

  /** One more non-fatal reply appends its fragment to the accumulator. */
  lemma AccumulateStep(rs: seq<Outcome>, i: nat)
    requires i < |rs| && NoFatal(rs[..i]) && !rs[i].ReqError?
    ensures NoFatal(rs[..i + 1])
    ensures Flatten(Fragments(rs[..i + 1])) == Flatten(Fragments(rs[..i])) + Fragment(rs[i])
  {
    assert rs[..i + 1] == rs[..i] + [rs[i]];
    assert Fragments(rs[..i + 1]) == Fragments(rs[..i]) + [Fragment(rs[i])];
  }

  /** Sending the request for chunk i extends the log of requests by it. */
  lemma RequestsStep(calls: seq<Request>, chunks: seq<Chunk>, i: nat)
    requires i < |chunks| && |calls| == i
    requires forall j :: 0 <= j < i ==> calls[j] == AudioRequest(chunks[j])
    ensures var calls' := calls + [AudioRequest(chunks[i])];
      |calls'| == i + 1 && forall j :: 0 <= j < i + 1 ==> calls'[j] == AudioRequest(chunks[j])
  {
  }

  /** One more chunk appends its progress value to the log. */
  lemma ProgressLogStep(i: nat, n: nat)
    requires i < n
    ensures ProgressLog(i, n) + [Progress(i, n)] == ProgressLog(i + 1, n)
  {
  }

  lemma FirstErrorAt(rs: seq<Outcome>, i: nat)
    requires i < |rs| && NoFatal(rs[..i]) && rs[i].ReqError?
    ensures FirstError(rs) == i
  {
  }

  lemma FirstErrorNone(rs: seq<Outcome>)
    requires NoFatal(rs)
    ensures FirstError(rs) == |rs|
  {
  }

  // ---------------------------------------------------------------------
  // Progress values

  /** Every progress value lies in 0..100, and the one after the last chunk
      is exactly 100. */
  lemma ProgressBounds(i: nat, n: nat)
    requires i < n
    ensures Progress(i, n) <= 100
    ensures i == n - 1 ==> Progress(i, n) == 100
  {
    MulMonotone(i + 1, n, 100);
    DivMonotone((i + 1) * 100, n * 100, n);
    DivUnique(n * 100, n, 100);
  }

  /** Progress never goes backwards. */
  lemma ProgressMonotone(i: nat, j: nat, n: nat)
    requires i <= j < n
    ensures Progress(i, n) <= Progress(j, n)
  {
    MulMonotone(i + 1, j + 1, 100);
    DivMonotone((i + 1) * 100, (j + 1) * 100, n);
  }

  /** The emitted progress log is non-decreasing, bounded by 100, and ends at
      100 once every chunk has been processed (app.py:109). */
  lemma ProgressLogShape(k: nat, n: nat)
    requires k <= n
    ensures |ProgressLog(k, n)| == k
    ensures forall a, b :: 0 <= a <= b < k ==> ProgressLog(k, n)[a] <= ProgressLog(k, n)[b] <= 100
    ensures k == n > 0 ==> ProgressLog(k, n)[k - 1] == 100
  {
    var log := ProgressLog(k, n);
    forall a, b | 0 <= a <= b < k ensures log[a] <= log[b] <= 100 {
      ProgressMonotone(a, b, n);
      ProgressBounds(b, n);
    }
    if k == n > 0 {
      ProgressBounds(k - 1, n);
    }
  }

  /** The first value is positive exactly when there are at most 100 chunks;
      with more, truncation reports 0 after the first chunk. */
  lemma ProgressFirstPositive(n: nat)
    requires n > 0
    ensures Progress(0, n) > 0 <==> n <= 100
  {
    if n <= 100 {
      DivMonotone(n, 100, n);
      DivUnique(n, n, 1);
    } else {
      DivUnique(100, n, 0);
    }
  }

  /** With at most 100 chunks the progress strictly increases. */
  lemma ProgressStrict(i: nat, n: nat)
    requires i + 1 < n <= 100
    ensures Progress(i, n) < Progress(i + 1, n)
  {
    var a := (i + 1) * 100;
    var q := a / n;
    assert a == q * n + a % n;
    assert (q + 1) * n == q * n + n;
    DivUnique(a + n, n, q + 1);
    assert (i + 2) * 100 == a + 100;
    DivMonotone(a + n, a + 100, n);
  }

  // ---------------------------------------------------------------------
  // Fragments and placeholders

  /** A recognised text that is literally the inaudible mark. */
  predicate NoLiteralMark(rs: seq<Outcome>)
  {
    forall i :: 0 <= i < |rs| ==> rs[i] != Ok(InaudibleMark)
  }

  /** A fragment is the placeholder exactly when the chunk had no speech,
      or when the service returned the mark itself as text. */
  lemma FragmentIsPlaceholder(o: Outcome)
    requires !o.ReqError?
    ensures Fragment(o) == Placeholder <==> o == NoMatch || o == Ok(InaudibleMark)
  {
    if o.Ok? && Fragment(o) == Placeholder {
      assert o.text == Fragment(o)[..|o.text|] == Placeholder[..|InaudibleMark|];
    }
  }

  /** Each chunk with no speech contributes one placeholder, and each
      recognised chunk contributes its own text followed by a space, in chunk
      order (app.py:102-104). */
  lemma PlaceholderPositions(rs: seq<Outcome>)
    requires NoFatal(rs) && NoLiteralMark(rs)
    ensures |Fragments(rs)| == |rs|
    ensures forall i :: 0 <= i < |rs| ==> (Fragments(rs)[i] == Placeholder <==> rs[i] == NoMatch)
    ensures forall i :: 0 <= i < |rs| && rs[i].Ok? ==> Fragments(rs)[i] == rs[i].text + " "
  {
    forall i | 0 <= i < |rs| ensures Fragments(rs)[i] == Placeholder <==> rs[i] == NoMatch {
      FragmentIsPlaceholder(rs[i]);
    }
  }

  /** The number of placeholders equals the number of chunks with no speech
      plus the number of replies that are the mark itself. */
  lemma {:induction false} PlaceholderCountAll(rs: seq<Outcome>)
    requires NoFatal(rs)
    ensures multiset(Fragments(rs))[Placeholder]
         == multiset(rs)[NoMatch] + multiset(rs)[Ok(InaudibleMark)]
  {
    if rs != [] {
      var n := |rs|;
      var rs' := rs[..n - 1];
      assert rs == rs' + [rs[n - 1]];
      assert Fragments(rs) == Fragments(rs') + [Fragment(rs[n - 1])];
      PlaceholderCountAll(rs');
      FragmentIsPlaceholder(rs[n - 1]);
    }
  }

  /** When no reply is the mark itself, the number of placeholders equals the
      number of chunks with no speech. */
  lemma PlaceholderCount(rs: seq<Outcome>)
    requires NoFatal(rs) && NoLiteralMark(rs)
    ensures multiset(Fragments(rs))[Placeholder] == multiset(rs)[NoMatch]
  {
    PlaceholderCountAll(rs);
    assert Ok(InaudibleMark) !in multiset(rs);
  }

  predicate AllOk(rs: seq<Outcome>)
  {
    forall i :: 0 <= i < |rs| ==> rs[i].Ok?
  }

  /** When every chunk is recognised (and none as the mark itself), no
      placeholder appears among the fragments. */
  lemma AllRecognisedNoPlaceholder(rs: seq<Outcome>)
    requires AllOk(rs) && NoLiteralMark(rs)
    ensures NoFatal(rs) && Placeholder !in Fragments(rs)
  {
    PlaceholderPositions(rs);
  }

  // ---------------------------------------------------------------------
  // The transcript as a space-joined sequence of texts

  function Texts(rs: seq<Outcome>): seq<string>
    requires AllOk(rs)
  {
    seq(|rs|, i requires 0 <= i < |rs| => rs[i].text)
  }

  /** Python's `sep.join(ts)`. */
  function Join(ts: seq<string>, sep: string): string
  {
    if |ts| == 0 then ""
    else if |ts| == 1 then ts[0]
    else Join(ts[..|ts| - 1], sep) + sep + ts[|ts| - 1]
  }

  /** With every chunk recognised, the accumulator is the texts joined by
      single spaces, followed by one trailing space. */
  lemma {:induction false} AccumulatorIsJoin(rs: seq<Outcome>)
    requires AllOk(rs) && rs != []
    ensures NoFatal(rs) && Flatten(Fragments(rs)) == Join(Texts(rs), " ") + " "
  {
    var n := |rs|;
    var rs' := rs[..n - 1];
    var last := rs[n - 1].text;
    AccumulateStep(rs, n - 1);
    assert rs[..n] == rs;
    assert Texts(rs)[..n - 1] == Texts(rs');
    if n > 1 {
      AccumulatorIsJoin(rs');
      assert Join(Texts(rs), " ") == Join(Texts(rs'), " ") + " " + last;
    } else {
      assert Fragments(rs') == [];
    }
  }

  /** The first and last characters of a join of non-empty texts are the
      first character of the first text and the last of the last. */
  lemma {:induction false} JoinEnds(ts: seq<string>, sep: string)
    requires |ts| > 0 && forall i :: 0 <= i < |ts| ==> ts[i] != []
    ensures |Join(ts, sep)| >= |ts[|ts| - 1]| > 0
    ensures Join(ts, sep)[0] == ts[0][0]
    ensures Join(ts, sep)[|Join(ts, sep)| - 1] == ts[|ts| - 1][|ts[|ts| - 1]| - 1]
  {
    if |ts| > 1 {
      var ts' := ts[..|ts| - 1];
      JoinEnds(ts', sep);
      assert ts'[0] == ts[0];
    }
  }

  /** With every chunk recognised, the transcript is the recognised texts
      joined by single spaces, then stripped (app.py:102, 119). */
  lemma AllRecognisedTranscript(rs: seq<Outcome>)
    requires AllOk(rs)
    ensures NoFatal(rs) && Strip(Flatten(Fragments(rs))) == Strip(Join(Texts(rs), " "))
  {
    if rs == [] {
      assert Fragments(rs) == [];
    } else {
      AccumulatorIsJoin(rs);
      StripAppendSpace(Join(Texts(rs), " "), " ");
    }
  }

  /** Joining non-empty texts without surrounding whitespace gives a text
      without surrounding whitespace. */
  lemma JoinTrimmed(ts: seq<string>, sep: string)
    requires forall i :: 0 <= i < |ts| ==> ts[i] != [] && Trimmed(ts[i])
    ensures Trimmed(Join(ts, sep))
  {
    if |ts| > 0 {
      JoinEnds(ts, sep);
      assert Trimmed(ts[0]) && Trimmed(ts[|ts| - 1]);
    }
  }

  /** When each recognised text is non-empty and carries no surrounding
      whitespace, the transcript is exactly the texts joined by single
      spaces. */
  lemma CleanTextsTranscript(rs: seq<Outcome>)
    requires AllOk(rs)
    requires forall i :: 0 <= i < |rs| ==> rs[i].text != [] && Trimmed(rs[i].text)
    ensures NoFatal(rs) && Strip(Flatten(Fragments(rs))) == Join(Texts(rs), " ")
  {
    AllRecognisedTranscript(rs);
    JoinTrimmed(Texts(rs), " ");
    StripTrimmed(Join(Texts(rs), " "));
  }

  // ---------------------------------------------------------------------
  // The whole pipeline

  /** `transcribe_audio_offline` from the decoded PCM bytes on (app.py:91-119):
      cut into 960000-byte chunks, then assembled.  Every request carries one
      chunk of 1 to 960000 bytes, the k-th starting at byte k*960000; on
      success the requests cover the buffer exactly, in order, and the
      progress log ends at 100; on a service error the request that failed
      is the last one made and it was not followed by a progress update; an
      empty buffer gives an empty transcript with no request and no update. */
  method TranscribeAudioOffline(frameData: seq<Byte>, recognise: (nat, Request) -> Outcome)
    returns (result: Option<string>, progress: seq<nat>, calls: seq<Request>)
    ensures |calls| <= CeilDiv(|frameData|, ChunkBytes)
    ensures forall j :: 0 <= j < |calls| ==>
      calls[j] == AudioRequest(Slice(frameData, j * ChunkBytes, j * ChunkBytes + ChunkBytes))
      && 1 <= |calls[j].frameData| <= ChunkBytes
    ensures forall a, b :: 0 <= a <= b < |progress| ==> progress[a] <= progress[b] <= 100
    ensures result.Some? ==> Flatten(Payloads(calls)) == frameData
    ensures result.Some? ==> |progress| == |calls| && (calls != [] ==> progress[|calls| - 1] == 100)
    ensures result.Some? ==> forall j :: 0 <= j < |calls| ==> !recognise(j, calls[j]).ReqError?
    ensures result.None? ==>
      (|calls| == |progress| + 1 && recognise(|calls| - 1, calls[|calls| - 1]).ReqError?)
    ensures frameData == [] ==> result == Some("") && progress == [] && calls == []
    ensures var rs := Replies(Chunks(frameData, ChunkBytes), recognise);
      result == if FirstError(rs) < |rs| then None else Some(Strip(Flatten(Fragments(rs))))
    ensures result.None? ==> forall j :: 0 <= j < |calls| - 1 ==> !recognise(j, calls[j]).ReqError?
  {
    var chunks := Chunks(frameData, ChunkBytes);
    result, progress, calls := Transcribe(chunks, recognise);
    ghost var rs := Replies(chunks, recognise);
    RequestsAreSlices(frameData, calls);
    ProgressLogShape(FirstError(rs), |chunks|);
    CallsBeforeError(chunks, recognise, calls);
    if result.Some? {
      RequestsCover(frameData, calls);
    }
    if frameData == [] {
      ChunkCount(frameData, ChunkBytes);
      EmptyTranscript(rs);
    }
  }

  /** The replies to the requests sent before the first error are not errors. */
  lemma CallsBeforeError(chunks: seq<Chunk>, recognise: (nat, Request) -> Outcome, calls: seq<Request>)
    requires |calls| <= |chunks|
    requires forall j :: 0 <= j < |calls| ==> calls[j] == AudioRequest(chunks[j])
    ensures forall j :: 0 <= j < |calls| && j < FirstError(Replies(chunks, recognise)) ==>
      !recognise(j, calls[j]).ReqError?
  {
    var rs := Replies(chunks, recognise);
    var k := FirstError(rs);
    forall j | 0 <= j < |calls| && j < k ensures !recognise(j, calls[j]).ReqError? {
      assert rs[..k][j] == rs[j];
    }
  }

  /** No replies give the empty transcript. */
  lemma EmptyTranscript(rs: seq<Outcome>)
    requires rs == []
    ensures NoFatal(rs) && Strip(Flatten(Fragments(rs))) == ""
  {
    assert Fragments(rs) == [];
    assert Strip("") == "";
  }

  /** Requests built from the first chunks carry Python slices of the buffer. */
  lemma RequestsAreSlices(frameData: seq<Byte>, calls: seq<Request>)
    requires |calls| <= |Chunks(frameData, ChunkBytes)|
    requires forall j :: 0 <= j < |calls| ==> calls[j] == AudioRequest(Chunks(frameData, ChunkBytes)[j])
    ensures |calls| <= CeilDiv(|frameData|, ChunkBytes)
    ensures forall j :: 0 <= j < |calls| ==>
      calls[j] == AudioRequest(Slice(frameData, j * ChunkBytes, j * ChunkBytes + ChunkBytes))
      && 1 <= |calls[j].frameData| <= ChunkBytes
  {
    ChunkCount(frameData, ChunkBytes);
    ChunkSlices(frameData, ChunkBytes);
  }

  /** Requests built from all the chunks carry the whole buffer, in order. */
  lemma RequestsCover(frameData: seq<Byte>, calls: seq<Request>)
    requires |calls| == |Chunks(frameData, ChunkBytes)|
    requires forall j :: 0 <= j < |calls| ==> calls[j] == AudioRequest(Chunks(frameData, ChunkBytes)[j])
    ensures Flatten(Payloads(calls)) == frameData
  {
    assert Payloads(calls) == Chunks(frameData, ChunkBytes);
    ChunksCover(frameData, ChunkBytes);
  }
}

/** `scripts/services/mirror-image.py`: the resumable, verified download of a blob, and the
    loop that downloads each blob of an image once. The server is an arbitrary function of the
    number of requests made so far and of the byte range asked for; byte ranges are inclusive
    (section 14.1.2 of RFC 9110). */
module Mirror {
  import opened Seqs
  import opened Text

  const CHUNK: nat := 4 * 1024 * 1024
  const ATTEMPTS: nat := 12

  /** What comes of one range request: an error; or data, with the number of bytes that reach
      the file if the write fails half way. */
  datatype Reply = NoAnswer | Answer(data: seq<byte>, brokenOffAt: Option<nat>)

  type Server = (nat, nat, nat) -> Reply

  /** What comes of the HEAD request of a pass: an error, no Content-Length (then the plain GET
      answers, or fails), or a length. */
  datatype Head = Unreachable | NoLength(whole: Option<seq<byte>>) | Length(total: int)

  datatype Download =
    | Verified(bytes: seq<byte>)
    | Unverified(bytes: seq<byte>)
    | Failed(why: Failure)

  datatype Failure = NotReachable | BadDigest | ChunkStuck | NoPartFile | DigestMismatch

  /** The part file, if it exists, and the ranges asked of the server so far. */
  datatype Local = Local(part: Option<seq<byte>>, asked: seq<(nat, nat)>)

  function Lesser(a: int, b: int): int {
    if a <= b then a else b
  }

  function Contents(part: Option<seq<byte>>): seq<byte> {
    if part.Some? then part.value else []
  }

  /** The size of the part file. */
  function Have(st: Local): nat {
    |Contents(st.part)|
  }

  // ---- one chunk ----

  /** The part file after one attempt, and whether the attempt succeeded. */
  function Attempt(server: Server, end: nat, st: Local): (r: (Local, bool))
    requires Have(st) <= end + 1
    ensures Have(st) <= Have(r.0) <= end + 1 && (r.1 ==> Have(r.0) == end + 1 && r.0.part.Some?)
  {
    var have := Have(st);
    var reply := server(|st.asked|, have, end);
    var asked := st.asked + [(have, end)];
    if reply.Answer? && |reply.data| == end + 1 - have then
      if reply.brokenOffAt.None? then (Local(Some(Contents(st.part) + reply.data), asked), true)
      else
        var written := reply.data[..Lesser(reply.brokenOffAt.value, |reply.data|)];
        (Local(Some(Contents(st.part) + written), asked), false)
    else (Local(st.part, asked), false)
  }

  /** The attempts at the chunk up to byte `end`. */
  function Retry(server: Server, end: nat, st: Local, attempts: nat): (r: (Local, bool))
    requires Have(st) <= end + 1
    ensures Have(st) <= Have(r.0) <= end + 1 && (r.1 ==> Have(r.0) == end + 1 && r.0.part.Some?)
    decreases attempts
  {
    if attempts == 0 then (st, false)
    else
      var next := Attempt(server, end, st);
      if next.1 then next else Retry(server, end, next.0, attempts - 1)
  }

  // ---- one pass ----

  /** The last byte of the next chunk. */
  function ChunkEnd(have: nat, total: int): (end: nat)
    requires have < total
    ensures have <= end < total
  {
    Lesser(have + CHUNK, total) - 1
  }

  /** The loop over the chunks of a blob of `total` bytes. */
  function Fetch(server: Server, total: int, st: Local): (r: (Local, bool))
    ensures Have(st) <= Have(r.0) && (r.1 ==> total <= Have(r.0))
    decreases total - Have(st)
  {
    if Have(st) >= total then (st, true)
    else
      var next := Retry(server, ChunkEnd(Have(st), total), st, ATTEMPTS);
      if next.1 then Fetch(server, total, next.0) else next
  }

  // ---- the download ----

  /** `digest.split(":", 1)[1]`; `None` when there is no colon. */
  function ExpectedOf(digest: string): Option<string> {
    var n := IndexOf(digest, ':');
    if n < |digest| then Some(digest[n + 1..]) else None
  }

  /** A source: what HEAD says in the first and in the second pass, and the server of ranges. */
  datatype Source = Source(head: nat -> Head, server: Server)

  /** `download_blob_resumable`, from pass number `depth` on. */
  function DownloadFrom(source: Source, sha: seq<byte> -> string, digest: string, depth: nat, st: Local)
      : (Local, Download)
    requires depth <= 1
    decreases 1 - depth
  {
    match source.head(depth)
    case Unreachable => (st, Failed(NotReachable))
    case NoLength(None) => (st, Failed(NotReachable))
    case NoLength(Some(whole)) => (st, Unverified(whole))
    case Length(total) =>
      if ExpectedOf(digest) == None then (st, Failed(BadDigest))
      else
        var (next, ok) := Fetch(source.server, total, st);
        if !ok then (next, Failed(ChunkStuck))
        else if next.part.None? then (next, Failed(NoPartFile))
        else
          var data, removed := next.part.value, next.(part := None);
          if sha(data) == ExpectedOf(digest).value then (removed, Verified(data))
          else if depth >= 1 then (removed, Failed(DigestMismatch))
          else DownloadFrom(source, sha, digest, depth + 1, removed)
  }

  /** A part file and the ranges asked of the server so far. */
  class Downloader {
    var part: Option<seq<byte>>
    var requests: seq<(nat, nat)>

    ghost function Now(): Local
      reads this
    {
      Local(part, requests)
    }

    constructor ()
      ensures Now() == Local(None, [])
    {
      part, requests := None, [];
    }

    /** The twelve attempts at one chunk; the range always ends at the chunk's last byte. */
    method FetchChunk(server: Server, end: nat) returns (ok: bool)
      requires Have(Now()) <= end + 1
      modifies this
      ensures (Now(), ok) == Retry(server, end, old(Now()), ATTEMPTS)
    {
      hide Attempt;
      ok := false;
      var have := |Contents(part)|;
      for attempt := 0 to ATTEMPTS
        invariant !ok && have == Have(Now()) <= end + 1
        invariant Retry(server, end, old(Now()), ATTEMPTS) == Retry(server, end, Now(), ATTEMPTS - attempt)
      {
        ghost var before := Now();
        var reply := server(|requests|, have, end);
        requests := requests + [(have, end)];
        if reply.Answer? && |reply.data| == end + 1 - have {
          if reply.brokenOffAt.None? {
            part := Some(Contents(part) + reply.data);
            ok := true;
            assert (Now(), true) == Attempt(server, end, before) by { AttemptCases(server, end, before); }
            break;
          }
          part := Some(Contents(part) + reply.data[..Lesser(reply.brokenOffAt.value, |reply.data|)]);
        }
        AttemptCases(server, end, before);
        have := |Contents(part)|;
      }
    }

    /** The loop over the chunks. */
    method FetchAll(server: Server, total: int) returns (ok: bool)
      modifies this
      ensures (Now(), ok) == Fetch(server, total, old(Now()))
    {
      hide Retry;
      while |Contents(part)| < total
        invariant Fetch(server, total, old(Now())) == Fetch(server, total, Now())
        decreases total - |Contents(part)|
      {
        var end := Lesser(|Contents(part)| + CHUNK, total) - 1;
        ok := FetchChunk(server, end);
        if !ok {
          return;
        }
      }
      ok := true;
    }

    /** `download_blob_resumable`, called again once after a digest mismatch. */
    method Download(source: Source, sha: seq<byte> -> string, digest: string, depth: nat) returns (r: Download)
      requires depth <= 1
      modifies this
      ensures (Now(), r) == DownloadFrom(source, sha, digest, depth, old(Now()))
      decreases 1 - depth
    {
      hide Fetch;
      match source.head(depth) {
        case Unreachable => return Failed(NotReachable);
        case NoLength(None) => return Failed(NotReachable);
        case NoLength(Some(whole)) => return Unverified(whole);
        case Length(_) =>
      }
      var expected := ExpectedOf(digest);
      if expected.None? {
        return Failed(BadDigest);
      }
      var ok := FetchAll(source.server, source.head(depth).total);
      if !ok {
        return Failed(ChunkStuck);
      }
      if part.None? {
        return Failed(NoPartFile);
      }
      var data := part.value;
      part := None;
      if sha(data) == expected.value {
        return Verified(data);
      }
      if depth >= 1 {
        return Failed(DigestMismatch);
      }
      r := Download(source, sha, digest, depth + 1);
    }
  }

  lemma AttemptCases(server: Server, end: nat, st: Local)
    requires Have(st) <= end + 1
    ensures var have, reply := Have(st), server(|st.asked|, Have(st), end);
            Attempt(server, end, st) ==
            if !(reply.Answer? && |reply.data| == end + 1 - have) then
              (Local(st.part, st.asked + [(have, end)]), false)
            else if reply.brokenOffAt.None? then
              (Local(Some(Contents(st.part) + reply.data), st.asked + [(have, end)]), true)
            else
              (Local(Some(Contents(st.part) + reply.data[..Lesser(reply.brokenOffAt.value, |reply.data|)]),
                     st.asked + [(have, end)]), false)
  {
  }

  // ---- how much is asked, and what is kept ----

  /** Number of chunks of four mebibytes in `n` bytes. */
  function Chunks(n: int): nat {
    if n <= 0 then 0 else (n + 4194303) / 4194304
  }

  /** Each chunk fetched takes one off the number still to fetch. */
  lemma OneChunkLess(left: int)
    requires left > 0
    ensures Chunks(left - Lesser(CHUNK, left)) == Chunks(left) - 1
  {
  }

  /** A later moment: the part file has only grown and the record of requests too, by ranges
      that end at one byte and are empty only when all bytes up to it are in the file. */
  ghost predicate Later(st: Local, next: Local, from: nat, total: int) {
    && Contents(st.part) <= Contents(next.part)
    && st.asked <= next.asked
    && forall i | |st.asked| <= i < |next.asked| ::
         from <= next.asked[i].0 <= next.asked[i].1 + 1 && next.asked[i].1 < total
  }

  /** All new requests are for ranges that end at this byte. */
  ghost predicate EndsAt(st: Local, next: Local, end: nat) {
    st.asked <= next.asked && forall i | |st.asked| <= i < |next.asked| :: next.asked[i].1 == end
  }

  lemma EndsAtTwice(a: Local, b: Local, c: Local, end: nat)
    requires EndsAt(a, b, end) && EndsAt(b, c, end)
    ensures EndsAt(a, c, end)
  {
  }

  /** No new request is for more than four mebibytes. */
  ghost predicate InChunks(st: Local, next: Local) {
    st.asked <= next.asked
    && forall i | |st.asked| <= i < |next.asked| :: next.asked[i].1 + 1 <= next.asked[i].0 + 4194304
  }

  lemma InChunksTwice(a: Local, b: Local, c: Local)
    requires InChunks(a, b) && InChunks(b, c)
    ensures InChunks(a, c)
  {
  }

  lemma ChunkIsLater(st: Local, next: Local, have: nat, end: nat, total: int)
    requires have < total && end == ChunkEnd(have, total)
    requires Later(st, next, have, end + 1) && EndsAt(st, next, end)
    ensures InChunks(st, next) && Later(st, next, have, total)
    ensures next.asked != [] ==> st.asked <= next.asked
  {
  }

  lemma LaterTwice(a: Local, b: Local, c: Local, from: nat, total: int)
    requires Later(a, b, from, total) && Later(b, c, from, total)
    ensures Later(a, c, from, total)
  {
  }

  lemma {:induction false} RetryGoesOn(server: Server, end: nat, st: Local, attempts: nat, from: nat)
    requires from <= Have(st) <= end + 1
    ensures var next := Retry(server, end, st, attempts).0;
            && Later(st, next, from, end + 1) && |next.asked| <= |st.asked| + attempts
            && EndsAt(st, next, end)
    decreases attempts
  {
    hide Later, EndsAt;
    if attempts == 0 {
      NothingLater(st, from, end + 1);
    } else {
      var next := Attempt(server, end, st);
      AttemptIsLater(server, end, st, from);
      if !next.1 {
        RetryGoesOn(server, end, next.0, attempts - 1, from);
        var last := Retry(server, end, next.0, attempts - 1).0;
        LaterTwice(st, next.0, last, from, end + 1);
        EndsAtTwice(st, next.0, last, end);
      }
    }
  }

  lemma NothingLater(st: Local, from: nat, total: int)
    ensures Later(st, st, from, total) && forall end :: EndsAt(st, st, end)
  {
  }

  lemma AttemptIsLater(server: Server, end: nat, st: Local, from: nat)
    requires from <= Have(st) <= end + 1
    ensures var next := Attempt(server, end, st).0;
            && Later(st, next, from, end + 1) && |next.asked| == |st.asked| + 1
            && EndsAt(st, next, end)
  {
    AttemptCases(server, end, st);
  }

  /** A pass asks at most twelve times for each chunk, for ranges within the blob (empty ones
      among them), and what is in the part file stays there. */
  lemma {:induction false} FetchGoesOn(server: Server, total: int, st: Local)
    ensures var next := Fetch(server, total, st).0;
            && Later(st, next, Have(st), total)
            && |next.asked| <= |st.asked| + 12 * Chunks(total - Have(st))
            && InChunks(st, next)
    ensures Have(st) >= total ==> Fetch(server, total, st) == (st, true)
    ensures Fetch(server, total, st).1 && total > Have(st) ==>
              Have(Fetch(server, total, st).0) == total && Fetch(server, total, st).0.part.Some?
    decreases total - Have(st)
  {
    hide Retry, Attempt;
    if Have(st) >= total {
      NothingLater(st, Have(st), total);
    } else {
      hide Later, EndsAt, InChunks;
      var end := ChunkEnd(Have(st), total);
      var next := Retry(server, end, st, ATTEMPTS);
      RetryGoesOn(server, end, st, ATTEMPTS, Have(st));
      ChunkIsLater(st, next.0, Have(st), end, total);
      OneChunkLess(total - Have(st));
      if next.1 {
        FetchGoesOn(server, total, next.0);
        LaterTwice(st, next.0, Fetch(server, total, next.0).0, Have(st), total);
        InChunksTwice(st, next.0, Fetch(server, total, next.0).0);
      }
    }
  }

  // ---- servers that never send wrong bytes ----

  /** Every reply is right, has the wrong length, or is missing; writes may still break off. */
  ghost predicate Honest(server: Server, blob: seq<byte>) {
    forall k: nat, lo: nat, hi: nat | lo <= hi < |blob| ::
      server(k, lo, hi).Answer? && |server(k, lo, hi).data| == hi + 1 - lo ==>
        server(k, lo, hi).data == blob[lo..hi + 1]
  }

  lemma AttemptKeepsPrefix(server: Server, end: nat, st: Local, blob: seq<byte>)
    requires Have(st) <= end + 1 <= |blob| && Honest(server, blob) && Contents(st.part) <= blob
    ensures Contents(Attempt(server, end, st).0.part) <= blob
  {
    hide Attempt, Honest;
    AttemptCases(server, end, st);
    var have, reply := Have(st), server(|st.asked|, Have(st), end);
    if reply.Answer? && |reply.data| == end + 1 - have {
      if have <= end {
        HonestReply(server, blob, |st.asked|, have, end);
        var n := if reply.brokenOffAt.None? then |reply.data| else Lesser(reply.brokenOffAt.value, |reply.data|);
        assert reply.data[..|reply.data|] == reply.data;
        MorePrefix(blob, Contents(st.part), end, n);
      } else {
        assert reply.data == [];
      }
    }
  }

  lemma HonestReply(server: Server, blob: seq<byte>, k: nat, lo: nat, hi: nat)
    requires Honest(server, blob) && lo <= hi < |blob|
    requires server(k, lo, hi).Answer? && |server(k, lo, hi).data| == hi + 1 - lo
    ensures server(k, lo, hi).data == blob[lo..hi + 1]
  {
  }

  lemma MorePrefix(blob: seq<byte>, have: seq<byte>, end: nat, n: nat)
    requires have <= blob && |have| <= end < |blob| && n <= end + 1 - |have|
    ensures have + blob[|have|..end + 1][..n] <= blob
  {
    assert have + blob[|have|..end + 1][..n] == blob[..|have| + n];
  }

  lemma {:induction false} RetryKeepsPrefix(server: Server, end: nat, st: Local, attempts: nat, blob: seq<byte>)
    requires Have(st) <= end + 1 <= |blob| && Honest(server, blob) && Contents(st.part) <= blob
    ensures Contents(Retry(server, end, st, attempts).0.part) <= blob
    decreases attempts
  {
    hide Attempt, Honest;
    if attempts > 0 {
      AttemptKeepsPrefix(server, end, st, blob);
      if !Attempt(server, end, st).1 {
        RetryKeepsPrefix(server, end, Attempt(server, end, st).0, attempts - 1, blob);
      }
    }
  }

  /** Against a server that sends no wrong bytes the part file is a prefix of the blob at every
      moment, whatever breaks off. */
  lemma {:induction false} FetchKeepsPrefix(server: Server, total: int, st: Local, blob: seq<byte>)
    requires total <= |blob| && Honest(server, blob) && Contents(st.part) <= blob
    ensures Contents(Fetch(server, total, st).0.part) <= blob
    decreases total - Have(st)
  {
    hide Retry, Honest;
    if Have(st) < total {
      var end := ChunkEnd(Have(st), total);
      RetryKeepsPrefix(server, end, st, ATTEMPTS, blob);
      if Retry(server, end, st, ATTEMPTS).1 {
        FetchKeepsPrefix(server, total, Retry(server, end, st, ATTEMPTS).0, blob);
      }
    }
  }

  // ---- when a chunk arrives ----

  /** The request with this number is answered in full, whatever its range. */
  ghost predicate AnswersInFull(server: Server, blob: seq<byte>, k: nat) {
    forall lo: nat, hi: nat | lo <= hi < |blob| :: server(k, lo, hi) == Answer(blob[lo..hi + 1], None)
  }

  /** One of so many requests in a row is answered in full. */
  ghost predicate OneOf(server: Server, blob: seq<byte>, k: nat, attempts: nat) {
    exists i: nat :: k <= i < k + attempts && AnswersInFull(server, blob, i)
  }

  /** Of any twelve requests in a row at least one is answered in full. */
  ghost predicate Reliable(server: Server, blob: seq<byte>) {
    forall k: nat :: OneOf(server, blob, k, 12)
  }

  /** A range that ends before it begins is invalid (section 14.1.1 of RFC 9110): it may be
      rejected, or ignored and answered with the whole blob, but not with no bytes at all. */
  ghost predicate RefusesEmptyRanges(server: Server) {
    forall k: nat, lo: nat, hi: nat | lo == hi + 1 :: !(server(k, lo, hi).Answer? && server(k, lo, hi).data == [])
  }

  /** Some attempt at the chunk writes all its bytes and fails all the same. */
  predicate BreaksOff(server: Server, end: nat, st: Local, attempts: nat)
    requires Have(st) <= end
    decreases attempts
  {
    attempts > 0 &&
    var next := Attempt(server, end, st);
    !next.1 && (Have(next.0) > end || BreaksOff(server, end, next.0, attempts - 1))
  }

  /** Once all bytes of the chunk are in the file, only an answer to the empty range could
      end the attempts well. */
  lemma {:induction false} CompleteIsStuck(server: Server, end: nat, st: Local, attempts: nat)
    requires Have(st) == end + 1 && RefusesEmptyRanges(server)
    ensures Retry(server, end, st, attempts).0.part == st.part && !Retry(server, end, st, attempts).1
    decreases attempts
  {
    hide Attempt;
    if attempts > 0 {
      AttemptCases(server, end, st);
      CompleteIsStuck(server, end, Attempt(server, end, st).0, attempts - 1);
    }
  }

  /** Attempts of which one is answered in full bring the chunk exactly if none of them breaks
      off after the chunk's last byte; else they fail with the whole chunk in the file. */
  lemma {:induction false} ChunkArrivesIff(server: Server, end: nat, st: Local, attempts: nat, blob: seq<byte>)
    requires Have(st) <= end < |blob| && RefusesEmptyRanges(server)
    requires OneOf(server, blob, |st.asked|, attempts)
    ensures var r := Retry(server, end, st, attempts);
            (r.1 <==> !BreaksOff(server, end, st, attempts)) && Have(r.0) == end + 1
    decreases attempts
  {
    hide Attempt, RefusesEmptyRanges, AnswersInFull;
    var i: nat :| |st.asked| <= i < |st.asked| + attempts && AnswersInFull(server, blob, i);
    var next := Attempt(server, end, st);
    AttemptIsLater(server, end, st, Have(st));
    if i == |st.asked| {
      FullAnswerArrives(server, end, st, blob);
    }
    if !next.1 {
      if Have(next.0) > end {
        CompleteIsStuck(server, end, next.0, attempts - 1);
      } else {
        assert |next.0.asked| <= i;
        ChunkArrivesIff(server, end, next.0, attempts - 1, blob);
      }
    }
  }

  lemma FullAnswerArrives(server: Server, end: nat, st: Local, blob: seq<byte>)
    requires Have(st) <= end < |blob| && AnswersInFull(server, blob, |st.asked|)
    ensures Attempt(server, end, st).1
  {
    AttemptCases(server, end, st);
  }

  /** Some chunk of the pass breaks off after its last byte. */
  predicate PassBreaksOff(server: Server, total: int, st: Local)
    decreases total - Have(st)
  {
    Have(st) < total &&
    var end := ChunkEnd(Have(st), total);
    var next := Retry(server, end, st, ATTEMPTS);
    BreaksOff(server, end, st, ATTEMPTS) || (next.1 && PassBreaksOff(server, total, next.0))
  }

  /** No write fails once all its bytes have reached the file. */
  ghost predicate NeverBreaksOffAtEnd(server: Server) {
    forall k: nat, lo: nat, hi: nat | lo <= hi && server(k, lo, hi).Answer? && server(k, lo, hi).brokenOffAt.Some? ::
      server(k, lo, hi).brokenOffAt.value < |server(k, lo, hi).data|
  }

  lemma {:induction false} ChunkNeverBreaksOff(server: Server, end: nat, st: Local, attempts: nat)
    requires Have(st) <= end && NeverBreaksOffAtEnd(server)
    ensures !BreaksOff(server, end, st, attempts)
    decreases attempts
  {
    hide Attempt;
    if attempts > 0 {
      AttemptCases(server, end, st);
      if Have(Attempt(server, end, st).0) <= end {
        ChunkNeverBreaksOff(server, end, Attempt(server, end, st).0, attempts - 1);
      }
    }
  }

  /** So no pass over a server whose writes never fail at their end is ever stuck there. */
  lemma {:induction false} PassNeverBreaksOff(server: Server, total: int, st: Local)
    requires NeverBreaksOffAtEnd(server)
    ensures !PassBreaksOff(server, total, st)
    decreases total - Have(st)
  {
    hide BreaksOff, NeverBreaksOffAtEnd, Retry;
    if Have(st) < total {
      var end := ChunkEnd(Have(st), total);
      ChunkNeverBreaksOff(server, end, st, ATTEMPTS);
      if Retry(server, end, st, ATTEMPTS).1 {
        PassNeverBreaksOff(server, total, Retry(server, end, st, ATTEMPTS).0);
      }
    }
  }

  /** With one answer in twelve a pass succeeds exactly if no write breaks off after the last
      byte of a chunk. If it fails, all chunks up to some one are in the file: the whole blob,
      if one chunk was missing. */
  lemma {:induction false} PassArrivesIff(server: Server, total: int, st: Local, blob: seq<byte>)
    requires total <= |blob| && RefusesEmptyRanges(server) && Reliable(server, blob)
    ensures var r := Fetch(server, total, st);
            && (r.1 <==> !PassBreaksOff(server, total, st))
            && (!r.1 ==> Have(st) < Have(r.0) <= total)
            && (!r.1 ==> Have(r.0) == total || (Have(r.0) - Have(st)) % 4194304 == 0)
    decreases total - Have(st)
  {
    hide Retry, BreaksOff, RefusesEmptyRanges, AnswersInFull;
    if Have(st) < total {
      var end := ChunkEnd(Have(st), total);
      assert OneOf(server, blob, |st.asked|, ATTEMPTS);
      ChunkArrivesIff(server, end, st, ATTEMPTS, blob);
      var next := Retry(server, end, st, ATTEMPTS);
      if next.1 {
        PassArrivesIff(server, total, next.0, blob);
      }
    }
  }

  // ---- the whole download ----

  function Total(h: Head): int {
    if h.Length? then h.total else 0
  }

  /** The first pass ends with bytes that do not have the digest. */
  predicate DigestFails(source: Source, sha: seq<byte> -> string, digest: string, st: Local) {
    source.head(0).Length? && ExpectedOf(digest).Some? &&
    var r := Fetch(source.server, source.head(0).total, st);
    r.1 && r.0.part.Some? && sha(r.0.part.value) != ExpectedOf(digest).value
  }

  /** Whatever the server sends: verified bytes have the digest, and leave no part file. Bytes
      get through unchecked exactly when a pass that is reached has no Content-Length. */
  lemma DownloadIsChecked(source: Source, sha: seq<byte> -> string, digest: string, st: Local)
    ensures var (next, r) := DownloadFrom(source, sha, digest, 0, st);
            && (r.Verified? ==> ExpectedOf(digest) == Some(sha(r.bytes)) && next.part == None)
            && (r == Failed(DigestMismatch) ==> next.part == None)
            && (r == Failed(ChunkStuck) && !DigestFails(source, sha, digest, st) ==>
                 Contents(st.part) <= Contents(next.part))
            && (r.Unverified? ==> next.part == (if source.head(0).NoLength? then st.part else None))
            && (r.Failed? && r.why == NotReachable <==>
                 NoAnswerFrom(source.head(0)) || (DigestFails(source, sha, digest, st) && NoAnswerFrom(source.head(1))))
    ensures forall bytes :: DownloadFrom(source, sha, digest, 0, st).1 == Unverified(bytes) <==>
              || source.head(0) == NoLength(Some(bytes))
              || (DigestFails(source, sha, digest, st) && source.head(1) == NoLength(Some(bytes)))
  {
    hide Fetch, ExpectedOf, Chunks;
    FetchGoesOn(source.server, Total(source.head(0)), st);
  }

  predicate NoAnswerFrom(h: Head) {
    h == Unreachable || h == NoLength(None)
  }

  /** A pass with a known length ends with these bytes in the part file. */
  predicate Completes(h: Head, server: Server, st: Local, bytes: seq<byte>) {
    h.Length? && Fetch(server, h.total, st).1 && Fetch(server, h.total, st).0.part == Some(bytes)
  }

  /** A pass with a known length is stuck at a chunk. */
  predicate Sticks(h: Head, server: Server, st: Local) {
    h.Length? && !Fetch(server, h.total, st).1
  }

  /** The second pass starts without a part file, with the requests that the first one made. */
  function SecondStart(source: Source, st: Local): Local {
    Fetch(source.server, Total(source.head(0)), st).0.(part := None)
  }

  /** A digest names its hash behind its first colon. */
  lemma ExpectedIs(algorithm: string, hash: string)
    requires ':' !in algorithm
    ensures ExpectedOf(algorithm + ":" + hash) == Some(hash)
    ensures ExpectedOf(algorithm) == None
  {
    var digest := algorithm + ":" + hash;
    assert digest[|algorithm|] == ':' && digest[|algorithm| + 1..] == hash;
    IndexOfUnique(digest, ':', |algorithm|);
  }

  /** Bytes are delivered exactly if they have the digest and the first pass ends with them, or
      the first pass ends with bytes of another digest and the second one, from no part file,
      ends with them. */
  lemma VerifiedIff(source: Source, sha: seq<byte> -> string, digest: string, st: Local, bytes: seq<byte>)
    ensures DownloadFrom(source, sha, digest, 0, st).1 == Verified(bytes) <==>
              && ExpectedOf(digest) == Some(sha(bytes))
              && (|| Completes(source.head(0), source.server, st, bytes)
                  || (DigestFails(source, sha, digest, st)
                      && Completes(source.head(1), source.server, SecondStart(source, st), bytes)))
  {
    hide Fetch, ExpectedOf;
  }

  /** A mismatch is reported exactly if both passes end with bytes of another digest. */
  lemma MismatchIff(source: Source, sha: seq<byte> -> string, digest: string, st: Local)
    ensures DownloadFrom(source, sha, digest, 0, st).1 == Failed(DigestMismatch) <==>
              && DigestFails(source, sha, digest, st)
              && exists bytes :: Completes(source.head(1), source.server, SecondStart(source, st), bytes)
                                 && ExpectedOf(digest) != Some(sha(bytes))
  {
    hide Fetch, ExpectedOf, Completes;
    var second := Fetch(source.server, Total(source.head(1)), SecondStart(source, st));
    if DigestFails(source, sha, digest, st) && second.0.part.Some? {
      CompletesWith(source.head(1), source.server, SecondStart(source, st), second.0.part.value);
    }
    if bytes :| Completes(source.head(1), source.server, SecondStart(source, st), bytes)
                && ExpectedOf(digest) != Some(sha(bytes)) {
      CompletesWith(source.head(1), source.server, SecondStart(source, st), bytes);
    }
  }

  lemma CompletesWith(h: Head, server: Server, st: Local, bytes: seq<byte>)
    ensures Completes(h, server, st, bytes) <==>
              h.Length? && Fetch(server, Total(h), st).1 && Fetch(server, Total(h), st).0.part == Some(bytes)
  {
    hide Fetch;
  }

  /** A stuck chunk is reported exactly if the first pass is stuck, or ends with bytes of another
      digest and the second pass is stuck; the part file of that pass stays. */
  lemma StuckIff(source: Source, sha: seq<byte> -> string, digest: string, st: Local)
    ensures var (next, r) := DownloadFrom(source, sha, digest, 0, st);
            && (r == Failed(ChunkStuck) <==>
                 && ExpectedOf(digest).Some?
                 && (|| Sticks(source.head(0), source.server, st)
                     || (DigestFails(source, sha, digest, st)
                         && Sticks(source.head(1), source.server, SecondStart(source, st)))))
            && (r == Failed(ChunkStuck) ==>
                  next == if DigestFails(source, sha, digest, st)
                          then Fetch(source.server, Total(source.head(1)), SecondStart(source, st)).0
                          else Fetch(source.server, Total(source.head(0)), st).0)
  {
    hide Fetch, ExpectedOf;
  }

  /** A digest without a colon is an error exactly once the length is known. */
  lemma BadDigestIff(source: Source, sha: seq<byte> -> string, digest: string, st: Local)
    ensures DownloadFrom(source, sha, digest, 0, st).1 == Failed(BadDigest) <==>
              source.head(0).Length? && ':' !in digest
    ensures source.head(0).Length? && ':' !in digest ==> DownloadFrom(source, sha, digest, 0, st).0 == st
  {
    hide Fetch;
  }

  /** The missing part file: exactly a length of zero or less with no part file there, in a pass
      that is reached. */
  lemma NoPartFileIff(source: Source, sha: seq<byte> -> string, digest: string, st: Local)
    ensures DownloadFrom(source, sha, digest, 0, st).1 == Failed(NoPartFile) <==>
              ExpectedOf(digest).Some? &&
              ( || (source.head(0).Length? && source.head(0).total <= 0 && st.part == None)
                || (DigestFails(source, sha, digest, st) && source.head(1).Length? && source.head(1).total <= 0))
  {
    hide Fetch, ExpectedOf;
    PartAfterPass(source.server, Total(source.head(0)), st);
    PartAfterPass(source.server, Total(source.head(1)), Fetch(source.server, Total(source.head(0)), st).0.(part := None));
  }

  lemma PartAfterPass(server: Server, total: int, st: Local)
    ensures var r := Fetch(server, total, st);
            && (r.1 ==> (r.0.part == None <==> total <= 0 && st.part == None))
            && (total <= 0 ==> r == (st, true))
  {
    FetchGoesOn(server, total, st);
    if total <= 0 {
      assert Fetch(server, total, st) == (st, true);
    }
  }

  /** At most two passes, each of at most twelve requests a chunk. */
  lemma RequestsAreBounded(source: Source, sha: seq<byte> -> string, digest: string, st: Local)
    ensures var next := DownloadFrom(source, sha, digest, 0, st).0;
            && st.asked <= next.asked
            && |next.asked| <= |st.asked| + 12 * Chunks(Total(source.head(0)) - Have(st)) + 12 * Chunks(Total(source.head(1)))
            && InChunks(st, next)
  {
    hide Fetch, Chunks, ExpectedOf, Later, InChunks;
    var first := Fetch(source.server, Total(source.head(0)), st).0;
    var second := Fetch(source.server, Total(source.head(1)), first.(part := None)).0;
    PassAsks(source.server, Total(source.head(0)), st);
    PassAsks(source.server, Total(source.head(1)), first.(part := None));
    NoneAsked(st);
    SameAsked(st, first);
    SameAsked(first.(part := None), second);
    InChunksTwice(st, first.(part := None), second);
    InChunksTwice(st, first.(part := None), second.(part := None));
  }

  /** Removing the part file asks nothing. */
  lemma SameAsked(st: Local, next: Local)
    requires InChunks(st, next)
    ensures InChunks(st, next.(part := None))
  {
  }

  lemma NoneAsked(st: Local)
    ensures InChunks(st, st)
  {
  }

  lemma PassAsks(server: Server, total: int, st: Local)
    ensures var next := Fetch(server, total, st).0;
            && st.asked <= next.asked && |next.asked| <= |st.asked| + 12 * Chunks(total - Have(st))
            && InChunks(st, next)
  {
    FetchGoesOn(server, total, st);
  }

  /** The server knows the length of the blob, the digest is the blob's, and no wrong bytes are sent. */
  ghost predicate Truthful(source: Source, sha: seq<byte> -> string, digest: string, blob: seq<byte>) {
    source.head(0) == Length(|blob|) && ExpectedOf(digest) == Some(sha(blob)) && Honest(source.server, blob)
  }

  /** A truthful source needs one pass. It ends with the blob, with a chunk that is stuck, or,
      exactly for an empty blob without a part file, with a missing file; and until the blob is
      verified the part file is a prefix of it. */
  lemma TruthfulDownload(source: Source, sha: seq<byte> -> string, digest: string, blob: seq<byte>, st: Local)
    requires Truthful(source, sha, digest, blob) && Contents(st.part) <= blob
    ensures var (next, r) := DownloadFrom(source, sha, digest, 0, st);
            && Contents(next.part) <= blob
            && |next.asked| <= |st.asked| + 12 * Chunks(|blob| - Have(st))
            && (r == Verified(blob) || r == Failed(ChunkStuck) || r == Failed(NoPartFile))
            && (r == Failed(NoPartFile) <==> |blob| == 0 && st.part == None)
            && (r == Failed(ChunkStuck) <==> !Fetch(source.server, |blob|, st).1)
            && (r == Failed(ChunkStuck) ==> next == Fetch(source.server, |blob|, st).0)
  {
    hide Fetch, Chunks, Honest, Later;
    FetchKeepsPrefix(source.server, |blob|, st, blob);
    PassAsks(source.server, |blob|, st);
    PartAfterPass(source.server, |blob|, st);
    var r := Fetch(source.server, |blob|, st);
    if r.1 {
      assert Contents(r.0.part) == blob;
    }
  }

  /** A truthful source that answers one request in twelve, and empty ranges as it should,
      delivers a blob exactly if no write breaks off after the last byte of a chunk; if one
      does, the download fails with the chunk in the part file. */
  lemma BlobArrivesIff(source: Source, sha: seq<byte> -> string, digest: string, blob: seq<byte>, st: Local)
    requires Truthful(source, sha, digest, blob) && Contents(st.part) <= blob
    requires Reliable(source.server, blob) && RefusesEmptyRanges(source.server)
    requires |blob| > 0 || st.part.Some?
    ensures var (next, r) := DownloadFrom(source, sha, digest, 0, st);
            && (r == Verified(blob) <==> !PassBreaksOff(source.server, |blob|, st))
            && (r != Verified(blob) ==> r == Failed(ChunkStuck) && Have(next) > Have(st))
            && (r != Verified(blob) && |blob| - Have(st) <= 4194304 ==> Contents(next.part) == blob)
  {
    hide Fetch, Truthful, PassBreaksOff, Reliable, RefusesEmptyRanges, DownloadFrom, Chunks, Honest;
    assert source.head(0) == Length(|blob|) by { LengthIsKnown(source, sha, digest, blob); }
    TruthfulDownload(source, sha, digest, blob, st);
    PassArrivesIff(source.server, |blob|, st, blob);
  }

  /** After a first pass that ends with bytes of another digest, from a stale part file or from
      wrong answers, a second pass over a source that is truthful and reliable delivers the blob
      exactly if no write breaks off after the last byte of a chunk. */
  lemma SecondPassDelivers(source: Source, sha: seq<byte> -> string, digest: string, blob: seq<byte>, st: Local)
    requires DigestFails(source, sha, digest, st) && blob != []
    requires source.head(1) == Length(|blob|) && ExpectedOf(digest) == Some(sha(blob))
    requires Honest(source.server, blob) && Reliable(source.server, blob) && RefusesEmptyRanges(source.server)
    ensures var (next, r) := DownloadFrom(source, sha, digest, 0, st);
            var start := SecondStart(source, st);
            && start.part == None
            && (r == Verified(blob) <==> !PassBreaksOff(source.server, |blob|, start))
            && (r != Verified(blob) ==> r == Failed(ChunkStuck))
            && (NeverBreaksOffAtEnd(source.server) ==> r == Verified(blob))
  {
    hide Fetch, PassBreaksOff, Reliable, RefusesEmptyRanges, DownloadFrom, Honest, DigestFails, ExpectedOf,
      NeverBreaksOffAtEnd, Chunks;
    var start := SecondStart(source, st);
    FetchKeepsPrefix(source.server, |blob|, start, blob);
    FetchGoesOn(source.server, |blob|, start);
    PassArrivesIff(source.server, |blob|, start, blob);
    VerifiedIff(source, sha, digest, st, blob);
    StuckIff(source, sha, digest, st);
    NotInFirst(source, sha, digest, st, blob);
    if NeverBreaksOffAtEnd(source.server) {
      PassNeverBreaksOff(source.server, |blob|, start);
    }
    var r := Fetch(source.server, |blob|, start);
    if r.1 {
      assert Contents(r.0.part) == blob;
    }
  }

  lemma NotInFirst(source: Source, sha: seq<byte> -> string, digest: string, st: Local, blob: seq<byte>)
    requires DigestFails(source, sha, digest, st) && ExpectedOf(digest) == Some(sha(blob))
    ensures !Completes(source.head(0), source.server, st, blob) && !Sticks(source.head(0), source.server, st)
  {
    hide Fetch, ExpectedOf;
  }

  lemma LengthIsKnown(source: Source, sha: seq<byte> -> string, digest: string, blob: seq<byte>)
    requires Truthful(source, sha, digest, blob)
    ensures source.head(0) == Length(|blob|)
  {
  }

  lemma AllBytesThenFailure(server: Server, blob: seq<byte>)
    requires 0 < |blob| && server(0, 0, |blob| - 1) == Answer(blob, Some(|blob|))
    ensures Attempt(server, |blob| - 1, Local(None, [])) == (Local(Some(blob), [(0, |blob| - 1)]), false)
  {
    AttemptCases(server, |blob| - 1, Local(None, []));
    assert blob[..Lesser(|blob|, |blob|)] == blob;
    assert Contents(None) + blob == blob;
    assert [] + [(0, |blob| - 1)] == [(0, |blob| - 1)];
  }

  lemma StuckPass(server: Server, blob: seq<byte>)
    requires 0 < |blob| <= 4194304 && RefusesEmptyRanges(server)
    requires server(0, 0, |blob| - 1) == Answer(blob, Some(|blob|))
    ensures var r := Fetch(server, |blob|, Local(None, [])); !r.1 && r.0.part == Some(blob)
  {
    hide Attempt, RefusesEmptyRanges;
    AllBytesThenFailure(server, blob);
    CompleteIsStuck(server, |blob| - 1, Local(Some(blob), [(0, |blob| - 1)]), ATTEMPTS - 1);
    assert ChunkEnd(0, |blob|) == |blob| - 1;
  }

  /** A small blob whose first write breaks off after its last byte is never delivered, although
      all of it is in the part file and every later request might be answered. */
  lemma WholeBlobIsStuck(source: Source, sha: seq<byte> -> string, digest: string, blob: seq<byte>)
    requires Truthful(source, sha, digest, blob) && 0 < |blob| <= 4194304 && RefusesEmptyRanges(source.server)
    requires source.server(0, 0, |blob| - 1) == Answer(blob, Some(|blob|))
    ensures DownloadFrom(source, sha, digest, 0, Local(None, [])).1 == Failed(ChunkStuck)
    ensures DownloadFrom(source, sha, digest, 0, Local(None, [])).0.part == Some(blob)
  {
    hide Fetch, Truthful, RefusesEmptyRanges, DownloadFrom;
    StuckPass(source.server, blob);
    TruthfulDownload(source, sha, digest, blob, Local(None, []));
  }

  // ---- each blob of an image once ----

  function Digests(pushed: seq<(string, seq<byte>)>): (ds: seq<string>)
    ensures |ds| == |pushed|
  {
    seq(|pushed|, i requires 0 <= i < |pushed| => pushed[i].0)
  }

  /** The bytes have the digest they go by, or their length was never announced. */
  predicate Checked(source: Source, sha: seq<byte> -> string, digest: string, bytes: seq<byte>) {
    || ExpectedOf(digest) == Some(sha(bytes))
    || source.head(0) == NoLength(Some(bytes))
    || source.head(1) == NoLength(Some(bytes))
  }

  ghost predicate AllChecked(pushed: seq<(string, seq<byte>)>, sources: string -> Source, sha: seq<byte> -> string) {
    forall p | p in pushed :: Checked(sources(p.0), sha, p.0, p.1)
  }

  /** The downloads of the digests in turn: what is left behind, what was pushed, and whether
      none failed. */
  function PushAll(digests: seq<string>, sources: string -> Source, sha: seq<byte> -> string, st: Local)
      : (Local, seq<(string, seq<byte>)>, bool)
  {
    if digests == [] then (st, [], true)
    else
      var (before, pushed, ok) := PushAll(digests[..|digests| - 1], sources, sha, st);
      if !ok then (before, pushed, false)
      else
        var digest := digests[|digests| - 1];
        var (next, r) := DownloadFrom(sources(digest), sha, digest, 0, before);
        if r.Failed? then (next, pushed, false) else (next, pushed + [(digest, r.bytes)], true)
  }

  lemma PushSnoc(digests: seq<string>, digest: string, sources: string -> Source, sha: seq<byte> -> string, st: Local)
    ensures var (before, pushed, ok) := PushAll(digests, sources, sha, st);
            var (next, r) := DownloadFrom(sources(digest), sha, digest, 0, before);
            PushAll(digests + [digest], sources, sha, st) ==
            if !ok then (before, pushed, false)
            else if r.Failed? then (next, pushed, false)
            else (next, pushed + [(digest, r.bytes)], true)
  {
    hide DownloadFrom;
    assert (digests + [digest])[..|digests|] == digests;
  }

  lemma {:induction false} FailureStays(digests: seq<string>, all: seq<string>, sources: string -> Source,
                                       sha: seq<byte> -> string, st: Local)
    requires digests <= all && !PushAll(digests, sources, sha, st).2
    ensures PushAll(all, sources, sha, st) == PushAll(digests, sources, sha, st)
    decreases |all|
  {
    hide PushAll;
    if |digests| < |all| {
      var init := all[..|all| - 1];
      assert digests <= init && init + [all[|all| - 1]] == all;
      FailureStays(digests, init, sources, sha, st);
      PushSnoc(init, all[|all| - 1], sources, sha, st);
    } else {
      assert all == digests;
    }
  }

  lemma PartIsGone(source: Source, sha: seq<byte> -> string, digest: string, st: Local)
    requires st.part == None
    ensures var (next, r) := DownloadFrom(source, sha, digest, 0, st);
            !r.Failed? ==> next.part == None && Checked(source, sha, digest, r.bytes)
  {
    hide DownloadFrom, DigestFails, ExpectedOf;
    DownloadIsChecked(source, sha, digest, st);
    var r := DownloadFrom(source, sha, digest, 0, st).1;
    assert r.Unverified? ==> r == Unverified(r.bytes);
  }

  /** What is pushed are the digests in turn, all of them unless one download fails, which is
      then the next one; every blob is checked, and no part file is left while none fails. */
  lemma {:induction false} PushedInTurn(digests: seq<string>, sources: string -> Source, sha: seq<byte> -> string, st: Local)
    requires st.part == None
    ensures var (next, pushed, ok) := PushAll(digests, sources, sha, st);
            && Digests(pushed) <= digests && AllChecked(pushed, sources, sha)
            && (ok <==> |pushed| == |digests|)
            && (ok ==> next.part == None)
            && (!ok ==>
                 var at := PushAll(digests[..|pushed|], sources, sha, st).0;
                 at.part == None && DownloadFrom(sources(digests[|pushed|]), sha, digests[|pushed|], 0, at).1.Failed?)
  {
    hide DownloadFrom, Checked;
    if digests != [] {
      var init, last := digests[..|digests| - 1], digests[|digests| - 1];
      PushedInTurn(init, sources, sha, st);
      var (before, pushed, ok) := PushAll(init, sources, sha, st);
      if ok {
        assert Digests(pushed) == init;
        PartIsGone(sources(last), sha, last, before);
        assert init + [last] == digests;
      } else {
        assert digests[..|pushed|] == init[..|pushed|];
      }
    }
  }

  /** Sources that are truthful, reliable and never break off at the end of a write. */
  ghost predicate Sound(source: Source, sha: seq<byte> -> string, digest: string, blob: seq<byte>) {
    && Truthful(source, sha, digest, blob) && Reliable(source.server, blob)
    && RefusesEmptyRanges(source.server) && NeverBreaksOffAtEnd(source.server)
  }

  /** A server that sends what it is asked for, and refuses empty ranges. */
  function Serving(blob: seq<byte>): Server {
    (k: nat, lo: nat, hi: nat) => if lo <= hi < |blob| then Answer(blob[lo..hi + 1], None) else NoAnswer
  }

  /** There are such sources: whoever serves every blob under its digest is one. */
  lemma ServingIsSound(sha: seq<byte> -> string, algorithm: string, blob: seq<byte>)
    requires ':' !in algorithm
    ensures Sound(Source(depth => Length(|blob|), Serving(blob)), sha, algorithm + ":" + sha(blob), blob)
  {
    hide ExpectedOf;
    ExpectedIs(algorithm, sha(blob));
    forall k: nat ensures OneOf(Serving(blob), blob, k, 12) {
      assert AnswersInFull(Serving(blob), blob, k);
    }
  }

  /** From such sources every blob that is not empty is pushed. */
  lemma {:induction false} SoundSourcesDeliver(digests: seq<string>, sources: string -> Source, sha: seq<byte> -> string,
                                               blobs: string -> seq<byte>, st: Local)
    requires st.part == None
    requires forall d | d in digests :: Sound(sources(d), sha, d, blobs(d)) && blobs(d) != []
    ensures var (next, pushed, ok) := PushAll(digests, sources, sha, st);
            ok && next.part == None && pushed == seq(|digests|, i requires 0 <= i < |digests| => (digests[i], blobs(digests[i])))
  {
    hide DownloadFrom, Sound;
    if digests != [] {
      var init, last := digests[..|digests| - 1], digests[|digests| - 1];
      SoundSourcesDeliver(init, sources, sha, blobs, st);
      var before := PushAll(init, sources, sha, st).0;
      assert last in digests;
      SoundDelivers(sources(last), sha, last, blobs(last), before);
      PartIsGone(sources(last), sha, last, before);
    }
  }

  lemma SoundDelivers(source: Source, sha: seq<byte> -> string, digest: string, blob: seq<byte>, st: Local)
    requires Sound(source, sha, digest, blob) && blob != [] && st.part == None
    ensures DownloadFrom(source, sha, digest, 0, st).1 == Verified(blob)
  {
    hide DownloadFrom, Truthful, Reliable, RefusesEmptyRanges, NeverBreaksOffAtEnd, PassBreaksOff;
    PassNeverBreaksOff(source.server, |blob|, st);
    BlobArrivesIff(source, sha, digest, blob, st);
  }

  lemma SeenSoFar(blobs: seq<string>, i: nat)
    requires i <= |blobs|
    ensures FirstSeen(blobs[..i]) <= FirstSeen(blobs)
  {
    hide FirstSeen;
    FirstSeenPrefix(blobs[..i], blobs[i..]);
    assert blobs[..i] + blobs[i..] == blobs;
  }

  lemma NothingSeen()
    ensures FirstSeen<string>([]) == []
  {
  }

  /** The loop of `main` over the config and layer digests: every digest downloaded and pushed
      once, in the order of first appearance, until one cannot be downloaded. */
  method MirrorBlobs(d: Downloader, blobs: seq<string>, sources: string -> Source, sha: seq<byte> -> string)
    returns (pushed: seq<(string, seq<byte>)>, complete: bool)
    modifies d
    ensures (d.Now(), pushed, complete) == PushAll(FirstSeen(blobs), sources, sha, old(d.Now()))
  {
    hide FirstSeen, PushAll, DownloadFrom;
    pushed := [];
    var seen: set<string> := {};
    NothingSeen();
    NothingPushed(sources, sha, d.Now());
    for i := 0 to |blobs|
      invariant PushAll(FirstSeen(blobs[..i]), sources, sha, old(d.Now())) == (d.Now(), pushed, true)
      invariant forall b :: b in seen <==> b in blobs[..i]
    {
      var digest := blobs[i];
      assert blobs[..i + 1] == blobs[..i] + [digest];
      FirstSeenSnoc(blobs[..i], digest);
      if digest !in seen {
        seen := seen + {digest};
        PushSnoc(FirstSeen(blobs[..i]), digest, sources, sha, old(d.Now()));
        var r := d.Download(sources(digest), sha, digest, 0);
        if r.Failed? {
          SeenSoFar(blobs, i + 1);
          FailureStays(FirstSeen(blobs[..i + 1]), FirstSeen(blobs), sources, sha, old(d.Now()));
          return pushed, false;
        }
        pushed := pushed + [(digest, r.bytes)];
      }
    }
    assert blobs[..|blobs|] == blobs;
    complete := true;
  }

  lemma NothingPushed(sources: string -> Source, sha: seq<byte> -> string, st: Local)
    ensures PushAll([], sources, sha, st) == (st, [], true)
  {
  }
}

/** The page-delta codec of xc_compression.c: runs of changed and unchanged 32-bit words, each behind a
    one-byte header. */
module PageDelta {
  import opened Bytes

  const PAGE: nat := 4096
  const WORDS: nat := 1024
  /** Longest run a header can count. */
  const RUN: nat := 127
  const WORST: nat := PAGE + 9
  const FULL: nat := PAGE + 1
  const SKIPFLAG: byte := 128

  // ----- The stream of a page ----------------------------------------------------------------------------

  function Word(p: seq<byte>, k: nat): seq<byte>
    requires |p| == PAGE && k < WORDS
  {
    p[4 * k..4 * k + 4]
  }

  predicate Changed(was: seq<byte>, now: seq<byte>, k: nat)
    requires |was| == |now| == PAGE && k < WORDS
  {
    Word(was, k) != Word(now, k)
  }

  /** Number of words from k on, at most `cap`, whose being changed is `kind`. */
  function Stretch(was: seq<byte>, now: seq<byte>, k: nat, kind: bool, cap: nat): (n: nat)
    requires |was| == |now| == PAGE && k <= WORDS
    ensures n <= cap && k + n <= WORDS
    ensures forall j :: k <= j < k + n ==> Changed(was, now, j) == kind
    ensures n == cap || k + n == WORDS || Changed(was, now, k + n) != kind
    decreases cap
  {
    if cap == 0 || k == WORDS || Changed(was, now, k) != kind then 0
    else 1 + Stretch(was, now, k + 1, kind, cap - 1)
  }

  /** One run of n words from word k: its header, and the new words if they changed. */
  function Piece(was: seq<byte>, now: seq<byte>, k: nat, n: nat): seq<byte>
    requires |was| == |now| == PAGE && 1 <= n <= RUN && k + n <= WORDS
  {
    if Changed(was, now, k) then [n as byte] + now[4 * k..4 * (k + n)] else [SKIPFLAG + n as byte]
  }

  /** The runs of the words from k on, each as long as possible. */
  function Body(was: seq<byte>, now: seq<byte>, k: nat): seq<byte>
    requires |was| == |now| == PAGE && k <= WORDS
    decreases WORDS - k
  {
    if k == WORDS then []
    else
      var n := Stretch(was, now, k, Changed(was, now, k), RUN);
      Piece(was, now, k, n) + Body(was, now, k + n)
  }

  /** What is sent for a page whose previous contents the receiver has. */
  function Encoded(was: seq<byte>, now: seq<byte>): seq<byte>
    requires |was| == |now| == PAGE
  {
    if was == now then [0] else Body(was, now, 0)
  }

  /** What is sent for a page whose previous contents the receiver may not have. */
  function Whole(page: seq<byte>): seq<byte> {
    [SKIPFLAG] + page
  }

  // ----- Decoding ------------------------------------------------------------------------------------------

  /** Bad: refused, with the destination as far as it was overwritten. */
  datatype Decoded = Bad(page: seq<byte>) | Good(page: seq<byte>, pos: nat)

  function RunLength(header: byte): nat {
    (header % SKIPFLAG) as nat
  }

  /** The runs of a normal page from `pos` on, onto `page` from byte `at` on. */
  function DecodeRuns(buf: seq<byte>, pos: nat, page: seq<byte>, at: nat): (d: Decoded)
    requires |page| == PAGE && pos <= |buf|
    ensures |d.page| == PAGE
    ensures d.Good? ==> pos <= d.pos <= |buf| && at <= PAGE
    decreases |buf| - pos
  {
    if at < PAGE && pos < |buf| then
      var n := 4 * RunLength(buf[pos]);
      if n == 0 then Bad(page)
      else if buf[pos] >= SKIPFLAG then DecodeRuns(buf, pos + 1, page, at + n)
      else if pos + 1 + n > |buf| || at + n > PAGE then Bad(page)
      else DecodeRuns(buf, pos + 1 + n, page[..at] + buf[pos + 1..pos + 1 + n] + page[at + n..], at + n)
    else if at == PAGE then Good(page, pos)
    else Bad(page)
  }

  function Decode(buf: seq<byte>, pos: nat, page: seq<byte>): (d: Decoded)
    requires |page| == PAGE
    ensures d.Good? ==> pos < d.pos <= |buf| && |d.page| == PAGE
  {
    if pos >= |buf| then Bad(page)
    else if buf[pos] == 0 then Good(page, pos + 1)
    else if buf[pos] == SKIPFLAG then
      if pos + FULL > |buf| then Bad(page) else Good(buf[pos + 1..pos + FULL], pos + FULL)
    else StartRuns(buf, pos, page)
  }

  function StartRuns(buf: seq<byte>, pos: nat, page: seq<byte>): (d: Decoded)
    requires |page| == PAGE && pos < |buf|
    ensures d.Good? ==> pos < d.pos <= |buf| && |d.page| == PAGE
  {
    DecodeRuns(buf, pos, page, 0)
  }

  // ----- The format, in bytes ----------------------------------------------------------------------------

  predicate SameWord(was: seq<byte>, now: seq<byte>, j: nat)
    requires |was| == |now| == 4096 && j < 1024
  {
    was[4 * j..4 * j + 4] == now[4 * j..4 * j + 4]
  }

  /** n words from k on make a run: all of them are the same as before, or none is, and the next word is of the
      other kind unless the run is 127 long. */
  predicate IsRun(was: seq<byte>, now: seq<byte>, k: nat, same: bool, n: nat)
    requires |was| == |now| == 4096 && k < 1024
  {
    && 1 <= n <= 127 && k + n <= 1024
    && (forall j :: k <= j < k + n ==> SameWord(was, now, j) == same)
    && (n == 127 || k + n == 1024 || SameWord(was, now, k + n) != same)
  }

  /** The header of a run: its length, plus 128 if the words did not change. */
  predicate RunHeader(was: seq<byte>, now: seq<byte>, k: nat, h: nat)
    requires |was| == |now| == 4096 && k < 1024
  {
    h < 256 && IsRun(was, now, k, h >= 128, h % 128)
  }

  /** What follows a header: the new words, if they changed. */
  function RunData(now: seq<byte>, k: nat, h: nat): seq<byte>
    requires |now| == 4096 && k + h % 128 <= 1024
  {
    if h < 128 then now[4 * k..4 * (k + h)] else []
  }

  /** `stream` is what the words from k on are sent as: headers of runs, each with its data behind it. */
  predicate InFormat(was: seq<byte>, now: seq<byte>, k: nat, stream: seq<byte>)
    requires |was| == |now| == 4096 && k <= 1024
    decreases 1024 - k
  {
    if k == 1024 then stream == []
    else
      && stream != [] && RunHeader(was, now, k, stream[0] as nat)
      && var h := stream[0] as nat;
         var data := RunData(now, k, h);
         && 1 + |data| <= |stream| && stream[1..1 + |data|] == data
         && InFormat(was, now, k + h % 128, stream[1 + |data|..])
  }

  lemma PieceBytes(was: seq<byte>, now: seq<byte>, k: nat, n: nat)
    requires |was| == |now| == PAGE && 1 <= n <= RUN && k + n <= WORDS
    ensures var h := n + if Changed(was, now, k) then 0 else 128;
            h < 256 && h % 128 == n && Piece(was, now, k, n) == [h as byte] + RunData(now, k, h)
  {
    hide Changed;
  }

  /** The run that Stretch measures is the one a header has to count. */
  lemma StretchUnique(was: seq<byte>, now: seq<byte>, k: nat, kind: bool, n: nat)
    requires |was| == |now| == PAGE && k < WORDS && 1 <= n <= RUN && k + n <= WORDS
    requires forall j :: k <= j < k + n ==> Changed(was, now, j) == kind
    requires n == RUN || k + n == WORDS || Changed(was, now, k + n) != kind
    ensures kind == Changed(was, now, k) && Stretch(was, now, k, kind, RUN) == n
  {
    var m := Stretch(was, now, k, kind, RUN);
    hide Changed, Stretch;
  }

  lemma SameIs(was: seq<byte>, now: seq<byte>)
    requires |was| == |now| == PAGE
    ensures forall j :: 0 <= j < WORDS ==> (SameWord(was, now, j) <==> !Changed(was, now, j))
  {}

  /** Exactly one header is right. */
  lemma HeaderIs(was: seq<byte>, now: seq<byte>, k: nat, h: nat)
    requires |was| == |now| == PAGE && k < WORDS
    ensures var n := Stretch(was, now, k, Changed(was, now, k), RUN);
            n >= 1 && (RunHeader(was, now, k, h) <==> h == n + if Changed(was, now, k) then 0 else 128)
  {
    hide IsRun, Stretch, Changed;
    RunIs(was, now, k, h >= 128, h % 128);
  }

  lemma RunIs(was: seq<byte>, now: seq<byte>, k: nat, same: bool, n: nat)
    requires |was| == |now| == PAGE && k < WORDS
    ensures var m := Stretch(was, now, k, Changed(was, now, k), RUN);
            1 <= m <= RUN && (IsRun(was, now, k, same, n) <==> same == !Changed(was, now, k) && n == m)
  {
    SameIs(was, now);
    StretchPositive(was, now, k);
    hide Stretch, Changed, SameWord;
    if IsRun(was, now, k, same, n) {
      StretchUnique(was, now, k, !same, n);
    }
  }

  /** The format admits exactly one stream, the one that is sent. */
  lemma {:induction false} FormatIs(was: seq<byte>, now: seq<byte>, k: nat, stream: seq<byte>)
    requires |was| == |now| == PAGE && k <= WORDS
    ensures InFormat(was, now, k, stream) <==> stream == Body(was, now, k)
    decreases WORDS - k
  {
    hide Changed, Stretch, Piece, RunHeader, RunData;
    if k < WORDS {
      HeaderIs(was, now, k, 0);
      var n := Stretch(was, now, k, Changed(was, now, k), RUN);
      var h := n + if Changed(was, now, k) then 0 else 128;
      PieceBytes(was, now, k, n);
      HeaderIs(was, now, k, h);
      HeaderFits(was, now, k, h);
      var data, rest := RunData(now, k, h), Body(was, now, k + n);
      assert Body(was, now, k) == [h as byte] + data + rest;
      if stream != [] {
        HeaderIs(was, now, k, stream[0] as nat);
      }
      if |stream| >= 1 + |data| {
        FormatIs(was, now, k + n, stream[1 + |data|..]);
        SplitsAt(stream, h as byte, data, rest);
      }
    }
  }

  lemma HeaderFits(was: seq<byte>, now: seq<byte>, k: nat, h: nat)
    requires |was| == |now| == PAGE && k < WORDS && RunHeader(was, now, k, h)
    ensures k + h % 128 <= WORDS
  {}

  lemma SplitsAt(s: seq<byte>, h: byte, data: seq<byte>, rest: seq<byte>)
    requires |s| >= 1 + |data|
    ensures s == [h] + data + rest <==> s[0] == h && s[1..1 + |data|] == data && s[1 + |data|..] == rest
  {
    assert s == [s[0]] + s[1..1 + |data|] + s[1 + |data|..];
  }

  /** The first byte of a page that changed is no marker, and tells whether word 0 changed. */
  lemma FirstByte(was: seq<byte>, now: seq<byte>)
    requires |was| == |now| == PAGE && was != now
    ensures var b := Body(was, now, 0);
            |b| >= 2 && b[0] != 0 && b[0] != 128 && (b[0] < 128 <==> was[..4] != now[..4])
  {
    StretchPositive(was, now, 0);
    var n := Stretch(was, now, 0, Changed(was, now, 0), RUN);
    PieceBytes(was, now, 0, n);
    BodyNotEmpty(was, now, n);
    assert Changed(was, now, 0) <==> was[..4] != now[..4];
    hide Changed, Stretch, Piece;
  }

  lemma BodyNotEmpty(was: seq<byte>, now: seq<byte>, k: nat)
    requires |was| == |now| == PAGE && k < WORDS
    ensures |Body(was, now, k)| >= 1
  {
    StretchPositive(was, now, k);
    hide Changed, Stretch;
  }

  // ----- What is accepted --------------------------------------------------------------------------------

  /** A stream of runs, each counting 1 to 127 words and with its data if it has any, for exactly so many words. */
  predicate Runs(stream: seq<byte>, words: nat)
    decreases words
  {
    if words == 0 then stream == []
    else
      && stream != []
      && var n := stream[0] as nat % 128;
         && 1 <= n <= words
         && if stream[0] < 128 then 1 + 4 * n <= |stream| && Runs(stream[1 + 4 * n..], words - n)
            else Runs(stream[1..], words - n)
  }

  /** Decoding from byte `at` of a page succeeds and stops at `next` if and only if what lies between is runs for
      the words that are left. */
  lemma {:induction false} AcceptedAre(buf: seq<byte>, pos: nat, page: seq<byte>, words: nat, next: nat)
    requires |page| == PAGE && pos <= next <= |buf| && words <= WORDS
    ensures var d := DecodeRuns(buf, pos, page, PAGE - 4 * words);
            d.Good? && d.pos == next <==> Runs(buf[pos..next], words)
    decreases words
  {
    hide DecodeRuns, Runs;
    var at := PAGE - 4 * words;
    if words == 0 {
      RunsEnd(buf, pos, page);
      RunsNone(buf[pos..next]);
    } else if pos == next {
      RunsSome(buf[pos..next], words);
      GoesOn(buf, pos, page, at);
    } else {
      RunsSome(buf[pos..next], words);
      var n := buf[pos] as nat % 128;
      OneStep(buf, pos, page, at);
      if 1 <= n <= words {
        if buf[pos] < 128 {
          if pos + 1 + 4 * n <= next {
            var page' := page[..at] + buf[pos + 1..pos + 1 + 4 * n] + page[at + 4 * n..];
            AcceptedAre(buf, pos + 1 + 4 * n, page', words - n, next);
            assert buf[pos..next][1 + 4 * n..] == buf[pos + 1 + 4 * n..next];
          }
        } else {
          AcceptedAre(buf, pos + 1, page, words - n, next);
          assert buf[pos..next][1..] == buf[pos + 1..next];
        }
      }
    }
  }

  lemma RunsNone(stream: seq<byte>)
    ensures Runs(stream, 0) <==> stream == []
  {}

  lemma RunsSome(stream: seq<byte>, words: nat)
    requires words > 0
    ensures Runs(stream, words) <==>
              && stream != []
              && var n := stream[0] as nat % 128;
                 && 1 <= n <= words
                 && if stream[0] < 128 then 1 + 4 * n <= |stream| && Runs(stream[1 + 4 * n..], words - n)
                    else Runs(stream[1..], words - n)
  {}

  /** A page that is not complete takes at least another byte. */
  lemma GoesOn(buf: seq<byte>, pos: nat, page: seq<byte>, at: nat)
    requires |page| == PAGE && pos <= |buf| && at < PAGE
    ensures var d := DecodeRuns(buf, pos, page, at); d.Good? ==> d.pos > pos
  {}

  lemma OneStep(buf: seq<byte>, pos: nat, page: seq<byte>, at: nat)
    requires |page| == PAGE && pos < |buf| && at < PAGE
    ensures var n, d := 4 * (buf[pos] as nat % 128), DecodeRuns(buf, pos, page, at);
            if n == 0 || at + n > PAGE then d.Bad?
            else if buf[pos] >= 128 then d == DecodeRuns(buf, pos + 1, page, at + n)
            else if pos + 1 + n > |buf| then d.Bad?
            else d == DecodeRuns(buf, pos + 1 + n, page[..at] + buf[pos + 1..pos + 1 + n] + page[at + n..], at + n)
  {}

  // ----- Round trip ------------------------------------------------------------------------------------------

  /** Words that did not change are the same bytes. */
  lemma UnchangedBytes(was: seq<byte>, now: seq<byte>, k: nat, n: nat)
    requires |was| == |now| == PAGE && k + n <= WORDS
    requires forall j :: k <= j < k + n ==> !Changed(was, now, j)
    ensures was[4 * k..4 * (k + n)] == now[4 * k..4 * (k + n)]
  {
    forall i | 4 * k <= i < 4 * (k + n)
      ensures was[i] == now[i]
    {
      var j := i / 4;
      assert !Changed(was, now, j);
      assert was[i] == Word(was, j)[i - 4 * j] && now[i] == Word(now, j)[i - 4 * j];
    }
  }

  /** The page once its words up to k have been brought up to date. */
  function Partly(was: seq<byte>, now: seq<byte>, k: nat): (p: seq<byte>)
    requires |was| == |now| == PAGE && k <= WORDS
    ensures |p| == PAGE
  {
    now[..4 * k] + was[4 * k..]
  }

  /** What a delta from `was` to `now` makes of a page, whatever the page is: changed words are the new
      ones, the others stay. */
  function Patch(was: seq<byte>, now: seq<byte>, page: seq<byte>): (p: seq<byte>)
    requires |was| == |now| == |page| == PAGE
    ensures |p| == PAGE
  {
    seq(PAGE, i requires 0 <= i < PAGE => if Changed(was, now, i / 4) then now[i] else page[i])
  }

  lemma PatchWord(was: seq<byte>, now: seq<byte>, page: seq<byte>, k: nat)
    requires |was| == |now| == |page| == PAGE && k < WORDS
    ensures Word(Patch(was, now, page), k) == if Changed(was, now, k) then Word(now, k) else Word(page, k)
  {
    hide Changed;
    PatchRun(was, now, page, k, 1);
    assert 4 * (k + 1) == 4 * k + 4;
  }

  /** Pages are equal when their words are. */
  lemma SameWords(p: seq<byte>, q: seq<byte>)
    requires |p| == |q| == PAGE && forall k :: 0 <= k < WORDS ==> Word(p, k) == Word(q, k)
    ensures p == q
  {
    forall i | 0 <= i < PAGE
      ensures p[i] == q[i]
    {
      var k := i / 4;
      assert p[i] == Word(p, k)[i - 4 * k] && q[i] == Word(q, k)[i - 4 * k];
    }
  }

  /** Over the page it was made against, it gives the new one. */
  lemma PatchSame(was: seq<byte>, now: seq<byte>)
    requires |was| == |now| == PAGE
    ensures Patch(was, now, was) == now && Patch(now, now, was) == was
  {
    hide Patch;
    forall k | 0 <= k < WORDS
      ensures Word(Patch(was, now, was), k) == Word(now, k) && Word(Patch(now, now, was), k) == Word(was, k)
    {
      PatchWord(was, now, was, k);
      PatchWord(now, now, was, k);
    }
    hide Word;
    SameWords(Patch(was, now, was), now);
    SameWords(Patch(now, now, was), was);
  }

  /** The page once the delta has been applied to its words up to k. */
  function PatchedTo(was: seq<byte>, now: seq<byte>, page: seq<byte>, k: nat): (p: seq<byte>)
    requires |was| == |now| == |page| == PAGE && k <= WORDS
    ensures |p| == PAGE
  {
    Patch(was, now, page)[..4 * k] + page[4 * k..]
  }

  lemma PatchRun(was: seq<byte>, now: seq<byte>, page: seq<byte>, k: nat, n: nat)
    requires |was| == |now| == |page| == PAGE && 1 <= n && k + n <= WORDS
    requires forall j :: k <= j < k + n ==> Changed(was, now, j) == Changed(was, now, k)
    ensures Patch(was, now, page)[4 * k..4 * (k + n)]
            == (if Changed(was, now, k) then now else page)[4 * k..4 * (k + n)]
  {
    hide Changed;
    forall i | 4 * k <= i < 4 * (k + n)
      ensures Patch(was, now, page)[i] == (if Changed(was, now, k) then now else page)[i]
    {
      assert k <= i / 4 < k + n;
    }
  }

  lemma RunsEnd(buf: seq<byte>, pos: nat, page: seq<byte>)
    requires |page| == PAGE && pos <= |buf|
    ensures DecodeRuns(buf, pos, page, PAGE) == Good(page, pos)
  {}

  lemma CopyStep(buf: seq<byte>, pos: nat, page: seq<byte>, at: nat, n: nat)
    requires |page| == PAGE && 1 <= n <= RUN && at + 4 * n <= PAGE && pos + 1 + 4 * n <= |buf| && buf[pos] == n as byte
    ensures DecodeRuns(buf, pos, page, at)
         == DecodeRuns(buf, pos + 1 + 4 * n, page[..at] + buf[pos + 1..pos + 1 + 4 * n] + page[at + 4 * n..],
             at + 4 * n)
  {}

  lemma SkipStep(buf: seq<byte>, pos: nat, page: seq<byte>, at: nat, n: nat)
    requires |page| == PAGE && 1 <= n <= RUN && at < PAGE && pos < |buf| && buf[pos] == SKIPFLAG + n as byte
    ensures DecodeRuns(buf, pos, page, at) == DecodeRuns(buf, pos + 1, page, at + 4 * n)
  {}

  /** Decoding one run brings its words up to date. */
  lemma OneRun(buf: seq<byte>, pos: nat, was: seq<byte>, now: seq<byte>, page: seq<byte>, k: nat, n: nat)
    requires |was| == |now| == |page| == PAGE && 1 <= n <= RUN && k + n <= WORDS
    requires forall j :: k <= j < k + n ==> Changed(was, now, j) == Changed(was, now, k)
    requires pos + |Piece(was, now, k, n)| <= |buf| && buf[pos..pos + |Piece(was, now, k, n)|] == Piece(was, now, k, n)
    ensures DecodeRuns(buf, pos, PatchedTo(was, now, page, k), 4 * k)
         == DecodeRuns(buf, pos + |Piece(was, now, k, n)|, PatchedTo(was, now, page, k + n), 4 * (k + n))
  {
    hide Changed, DecodeRuns, Patch;
    var piece, done, next := Piece(was, now, k, n), PatchedTo(was, now, page, k), PatchedTo(was, now, page, k + n);
    assert buf[pos] == piece[0];
    PatchRun(was, now, page, k, n);
    var patched := Patch(was, now, page);
    assert patched[..4 * (k + n)] == patched[..4 * k] + patched[4 * k..4 * (k + n)];
    if Changed(was, now, k) {
      assert buf[pos + 1..pos + 1 + 4 * n] == piece[1..];
      CopyStep(buf, pos, done, 4 * k, n);
      assert next == done[..4 * k] + buf[pos + 1..pos + 1 + 4 * n] + done[4 * k + 4 * n..];
    } else {
      SkipStep(buf, pos, done, 4 * k, n);
      assert next == done;
    }
  }

  /** Decoding the runs from word k on, over a page that is patched up to there, patches all of it. */
  lemma {:induction false} RunsRoundTrip(buf: seq<byte>, pos: nat, was: seq<byte>, now: seq<byte>, page: seq<byte>,
                                         k: nat)
    requires |was| == |now| == |page| == PAGE && k <= WORDS
    requires pos + |Body(was, now, k)| <= |buf| && buf[pos..pos + |Body(was, now, k)|] == Body(was, now, k)
    ensures DecodeRuns(buf, pos, PatchedTo(was, now, page, k), 4 * k)
            == Good(Patch(was, now, page), pos + |Body(was, now, k)|)
    decreases WORDS - k
  {
    hide Stretch, Changed, Piece, DecodeRuns, Patch;
    if k == WORDS {
      assert PatchedTo(was, now, page, k) == Patch(was, now, page);
      RunsEnd(buf, pos, Patch(was, now, page));
    } else {
      StretchPositive(was, now, k);
      var n := Stretch(was, now, k, Changed(was, now, k), RUN);
      var piece, rest := Piece(was, now, k, n), Body(was, now, k + n);
      assert piece + rest == Body(was, now, k);
      assert buf[pos..pos + |piece|] == (piece + rest)[..|piece|];
      assert buf[pos + |piece|..pos + |piece| + |rest|] == (piece + rest)[|piece|..];
      OneRun(buf, pos, was, now, page, k, n);
      RunsRoundTrip(buf, pos + |piece|, was, now, page, k + n);
    }
  }

  lemma StretchPositive(was: seq<byte>, now: seq<byte>, k: nat)
    requires |was| == |now| == PAGE && k < WORDS
    ensures Stretch(was, now, k, Changed(was, now, k), RUN) >= 1
  {
    hide Changed;
  }

  lemma BodyStarts(was: seq<byte>, now: seq<byte>)
    requires |was| == |now| == PAGE
    ensures |Body(was, now, 0)| > 0 && Body(was, now, 0)[0] != 0 && Body(was, now, 0)[0] != SKIPFLAG
  {
    StretchPositive(was, now, 0);
    hide Changed, Stretch;
  }

  /** A delta sent anywhere in a stream patches whatever page it is decoded over, and leaves the position
      right behind it: a run header is never taken for an EMPTY or FULL marker. */
  lemma DeltaPatches(buf: seq<byte>, pos: nat, was: seq<byte>, now: seq<byte>, page: seq<byte>)
    requires |was| == |now| == |page| == PAGE
    requires pos + |Encoded(was, now)| <= |buf| && buf[pos..pos + |Encoded(was, now)|] == Encoded(was, now)
    ensures Decode(buf, pos, page) == Good(Patch(was, now, page), pos + |Encoded(was, now)|)
  {
    hide Body, DecodeRuns, Patch;
    var e := Encoded(was, now);
    if was == now {
      assert buf[pos] == e[0];
      PatchSame(page, now);
    } else {
      BodyStarts(was, now);
      assert buf[pos] == e[0];
      assert PatchedTo(was, now, page, 0) == page;
      RunsRoundTrip(buf, pos, was, now, page, 0);
    }
  }

  /** Over the page it was made against, it gives the new page. */
  lemma DeltaRoundTrip(buf: seq<byte>, pos: nat, was: seq<byte>, now: seq<byte>)
    requires |was| == |now| == PAGE
    requires pos + |Encoded(was, now)| <= |buf| && buf[pos..pos + |Encoded(was, now)|] == Encoded(was, now)
    ensures Decode(buf, pos, was) == Good(now, pos + |Encoded(was, now)|)
  {
    hide Decode, Encoded, Patch;
    DeltaPatches(buf, pos, was, now, was);
    PatchSame(was, now);
  }

  /** A whole page decodes to itself over anything. */
  lemma WholeRoundTrip(buf: seq<byte>, pos: nat, was: seq<byte>, now: seq<byte>)
    requires |was| == |now| == PAGE && pos + FULL <= |buf| && buf[pos..pos + FULL] == Whole(now)
    ensures Decode(buf, pos, was) == Good(now, pos + FULL)
  {
    hide DecodeRuns;
    assert buf[pos] == Whole(now)[0];
    assert buf[pos + 1..pos + FULL] == Whole(now)[1..];
  }

  // ----- The bound ---------------------------------------------------------------------------------------------

  /** Four bytes a word, and a header for every 127 of them. */
  function Bound(words: nat): nat {
    4 * words + (words + 126) / 127
  }

  lemma BodyLength(was: seq<byte>, now: seq<byte>, k: nat)
    requires |was| == |now| == PAGE && k < WORDS
    ensures var n := Stretch(was, now, k, Changed(was, now, k), RUN);
            n >= 1 && |Body(was, now, k)| == (if Changed(was, now, k) then 4 * n + 1 else 1) + |Body(was, now, k + n)|
  {
    hide Changed, Stretch;
    StretchPositive(was, now, k);
  }

  lemma BodyEnds(was: seq<byte>, now: seq<byte>)
    requires |was| == |now| == PAGE
    ensures Body(was, now, WORDS) == [] && Bound(0) == 0 && Bound(WORDS) == WORST
  {}

  lemma BoundSplits(words: nat, n: nat)
    requires 1 <= n <= RUN && n <= words
    ensures Bound(words - n) + 4 * n <= Bound(words)
    ensures n == RUN || n == words ==> Bound(words) == Bound(words - n) + 4 * n + 1
  {}

  /** A skip pays for the header of the short run before it. */
  lemma {:induction false} BodyBound(was: seq<byte>, now: seq<byte>, k: nat)
    requires |was| == |now| == PAGE && k <= WORDS
    ensures |Body(was, now, k)| <= Bound(WORDS - k)
    ensures k < WORDS && !Changed(was, now, k) ==> |Body(was, now, k)| + 3 <= Bound(WORDS - k)
    decreases WORDS - k
  {
    hide Changed, Stretch, Body, Bound;
    BodyEnds(was, now);
    if k < WORDS {
      BodyLength(was, now, k);
      var n := Stretch(was, now, k, Changed(was, now, k), RUN);
      BoundSplits(WORDS - k, n);
      BodyBound(was, now, k + n);
    }
  }

  lemma EncodedBound(was: seq<byte>, now: seq<byte>)
    requires |was| == |now| == PAGE
    ensures 1 <= |Encoded(was, now)| <= WORST
  {
    hide Body;
    BodyStarts(was, now);
    BodyBound(was, now, 0);
  }

  /** The bound is met by every page all of whose words changed. */
  lemma {:induction false} BoundIsTight(was: seq<byte>, now: seq<byte>, k: nat)
    requires |was| == |now| == PAGE && k <= WORDS && forall j :: k <= j < WORDS ==> Changed(was, now, j)
    ensures |Body(was, now, k)| == Bound(WORDS - k)
    ensures k == 0 ==> |Encoded(was, now)| == WORST
    decreases WORDS - k
  {
    hide Changed, Stretch, Body, Bound;
    BodyEnds(was, now);
    if k < WORDS {
      BodyLength(was, now, k);
      var n := Stretch(was, now, k, Changed(was, now, k), RUN);
      BoundSplits(WORDS - k, n);
      BoundIsTight(was, now, k + n);
      assert n == RUN || k + n == WORDS;
      assert Changed(was, now, k);
      assert was != now by {
        if was == now {
          SameUnchanged(was, k);
        }
      }
    }
  }

  lemma SameUnchanged(p: seq<byte>, k: nat)
    requires |p| == PAGE && k < WORDS
    ensures !Changed(p, p, k)
  {}
}

/** How selected text is cut into pieces and packed into review batches:
    internal/audit/review.go 205-219 and 593-717.

    The length of a piece in JSON and whether files fit the provider's context are
    parameters. */
module ReviewBatches {
  import opened Text
  import opened Utf8

  /** A file with the text selected for review; `key` is the encoded path that
      files are sorted by. */
  datatype File = File(path: string, key: string, text: string)

  datatype Piece = Piece(file: string, offset: nat, lineStart: nat, lineEnd: nat, content: string)

  datatype Batch = Batch(index: nat, count: nat, files: seq<Piece>)

  const NEWLINE := '\n'
  const NOTHING := Piece("<none>", 0, 1, 1, "No text selected.")
  const MAX_CONTENT := 20 * 1024 * 1024

  // ---------------------------------------------------------------- pieces

  /** A nonempty range of bytes. */
  datatype Span = Span(start: nat, end: nat)

  function Spans(length: nat, offset: nat, chunk: nat): (spans: seq<Span>)
    requires chunk > 0 && offset <= length
    ensures forall s :: s in spans ==> offset <= s.start < s.end <= length && s.end - s.start <= chunk
    decreases length - offset
  {
    if offset == length then [] else
      var end := if offset + chunk < length then offset + chunk else length;
      [Span(offset, end)] + Spans(length, end, chunk)
  }

  function PieceOf(path: string, text: string, s: Span): Piece
    requires s.start < s.end <= |text|
  {
    var first := 1 + Count(text[..s.start], NEWLINE);
    Piece(path, s.start, first, first + Count(text[s.start..s.end - 1], NEWLINE), ToValid(text[s.start..s.end]))
  }

  function PiecesOf(path: string, text: string, spans: seq<Span>): (pieces: seq<Piece>)
    requires forall s :: s in spans ==> s.start < s.end <= |text|
    ensures |pieces| == |spans|
    ensures forall i :: 0 <= i < |spans| ==> pieces[i] == PieceOf(path, text, spans[i])
  {
    if spans == [] then [] else [PieceOf(path, text, spans[0])] + PiecesOf(path, text, spans[1..])
  }

  function FilePieces(f: File, chunk: nat): seq<Piece>
    requires chunk > 0
  {
    PiecesOf(f.path, f.text, Spans(|f.text|, 0, chunk))
  }

  function Pieces(files: seq<File>, chunk: nat): seq<Piece>
    requires chunk > 0
  {
    if files == [] then [] else Pieces(files[..|files| - 1], chunk) + FilePieces(files[|files| - 1], chunk)
  }

  function TextBytes(files: seq<File>): nat {
    if files == [] then 0 else TextBytes(files[..|files| - 1]) + |files[|files| - 1].text|
  }

  method CutFiles(files: seq<File>, chunk: nat, limit: int) returns (pieces: Option<seq<Piece>>)
    requires chunk > 0
    ensures pieces.None? ==> TextBytes(files) > limit
    ensures pieces.Some? ==> pieces.value == Pieces(files, chunk)
    ensures pieces.Some? && limit >= 0 ==> TextBytes(files) <= limit
  {
    var all: seq<Piece> := [];
    var total := 0;
    for i := 0 to |files|
      invariant all == Pieces(files[..i], chunk)
      invariant total == TextBytes(files[..i]) && (limit >= 0 ==> total <= limit)
    {
      var f := files[i];
      assert files[..i + 1][..i] == files[..i];
      if f.text == "" {
        assert FilePieces(f, chunk) == [];
        continue;
      }
      total := total + |f.text|;
      if total > limit {
        BytesGrow(files, i + 1);
        return None;
      }
      var cut := CutFile(f, chunk);
      all := all + cut;
    }
    assert files[..|files|] == files;
    return Some(all);
  }

  lemma {:induction false} BytesGrow(files: seq<File>, n: nat)
    requires n <= |files|
    ensures TextBytes(files[..n]) <= TextBytes(files)
  {
    if n < |files| {
      BytesGrow(files[..|files| - 1], n);
      assert files[..|files| - 1][..n] == files[..n];
    } else {
      assert files[..n] == files;
    }
  }

  /** The pieces from `offset` on. */
  function RestPieces(f: File, offset: nat, chunk: nat): seq<Piece>
    requires chunk > 0 && offset <= |f.text|
  {
    PiecesOf(f.path, f.text, Spans(|f.text|, offset, chunk))
  }

  lemma RestStep(f: File, offset: nat, chunk: nat)
    requires chunk > 0 && offset < |f.text|
    ensures var end := if offset + chunk < |f.text| then offset + chunk else |f.text|;
            RestPieces(f, offset, chunk) == [PieceOf(f.path, f.text, Span(offset, end))] + RestPieces(f, end, chunk)
  {
    hide PieceOf;
    var end := if offset + chunk < |f.text| then offset + chunk else |f.text|;
    var spans := Spans(|f.text|, offset, chunk);
    assert spans[0] == Span(offset, end) && spans[1..] == Spans(|f.text|, end, chunk);
  }

  /** One more piece in front of what is left. */
  lemma CutStep(f: File, offset: nat, chunk: nat, pieces: seq<Piece>)
    requires chunk > 0 && offset < |f.text|
    ensures var end := if offset + chunk < |f.text| then offset + chunk else |f.text|;
            pieces + RestPieces(f, offset, chunk) ==
            (pieces + [PieceOf(f.path, f.text, Span(offset, end))]) + RestPieces(f, end, chunk)
  {
    hide PieceOf, RestPieces;
    RestStep(f, offset, chunk);
  }

  method CutFile(f: File, chunk: nat) returns (pieces: seq<Piece>)
    requires chunk > 0
    ensures pieces == FilePieces(f, chunk)
  {
    hide PieceOf, RestPieces, FilePieces, PiecesOf, Spans, ToValid, Count;
    pieces := [];
    var offset := 0;
    WholeFile(f, chunk);
    while offset < |f.text|
      invariant pieces + RestPieces(f, if offset < |f.text| then offset else |f.text|, chunk) == FilePieces(f, chunk)
    {
      var end := if offset + chunk < |f.text| then offset + chunk else |f.text|;
      CutStep(f, offset, chunk, pieces);
      pieces := pieces + [PieceOf(f.path, f.text, Span(offset, end))];
      offset := offset + chunk;
    }
    NothingLeft(f, chunk);
  }

  lemma WholeFile(f: File, chunk: nat)
    requires chunk > 0
    ensures RestPieces(f, 0, chunk) == FilePieces(f, chunk)
  {
  }

  lemma NothingLeft(f: File, chunk: nat)
    requires chunk > 0
    ensures RestPieces(f, |f.text|, chunk) == []
  {
  }

  // ---------------------------------------------------------------- packing

  datatype Packing = Packing(batchBytes: int, size: Piece -> nat, fits: seq<Piece> -> bool)

  function SizeOf(p: Packing, pieces: seq<Piece>): nat {
    if pieces == [] then 0 else SizeOf(p, pieces[..|pieces| - 1]) + p.size(pieces[|pieces| - 1])
  }

  function Joined(batches: seq<seq<Piece>>): seq<Piece> {
    if batches == [] then [] else Joined(batches[..|batches| - 1]) + batches[|batches| - 1]
  }

  /** A batch is nonempty and fits the provider; with more than one piece it is
      within the byte limit. */
  predicate Sound(p: Packing, batch: seq<Piece>) {
    batch != [] && p.fits(batch) && (|batch| > 1 ==> SizeOf(p, batch) <= p.batchBytes)
  }

  /** The next piece was too much for the batch. */
  predicate Full(p: Packing, batch: seq<Piece>, next: Piece) {
    SizeOf(p, batch) + p.size(next) > p.batchBytes || !p.fits(batch + [next])
  }

  predicate Greedy(p: Packing, batches: seq<seq<Piece>>) {
    && (forall b :: b in batches ==> Sound(p, b))
    && (forall i :: 0 < i < |batches| ==> batches[i] != [] && Full(p, batches[i - 1], batches[i][0]))
  }

  /** The batches hold the pieces, all of them and in order; each is within its
      limits, and each was closed only because the next piece was too much for it. */
  method Pack(p: Packing, pieces: seq<Piece>) returns (batches: Option<seq<seq<Piece>>>)
    ensures batches.Some? ==> Joined(batches.value) == pieces && Greedy(p, batches.value)
    ensures batches.None? ==> exists q :: q in pieces && !p.fits([q])
  {
    hide SizeOf, Joined, Greedy;
    PackingStarts(p);
    var done: seq<seq<Piece>> := [];
    var current: seq<Piece> := [];
    var currentSize := 0;
    for i := 0 to |pieces|
      invariant Joined(done) + current == pieces[..i]
      invariant currentSize == SizeOf(p, current)
      invariant Greedy(p, done) && (current != [] ==> Greedy(p, done + [current]))
      invariant current == [] ==> i == 0 && done == []
    {
      var piece := pieces[i];
      assert pieces[..i + 1] == pieces[..i] + [piece];
      var fits := p.fits(current + [piece]);
      if current != [] && (currentSize + p.size(piece) > p.batchBytes || !fits) {
        assert Full(p, current, piece);
        JoinLast(done, current);
        done := done + [current];
        current, currentSize := [], 0;
        fits := p.fits([piece]);
      }
      if !fits {
        assert [] + [piece] == [piece] && piece in pieces;
        return None;
      }
      assert current == [] ==> current + [piece] == [piece];
      OneMore(p, done, current, piece);
      current := current + [piece];
      currentSize := currentSize + p.size(piece);
    }
    assert pieces[..|pieces|] == pieces;
    if current != [] {
      JoinLast(done, current);
      done := done + [current];
    }
    return Some(done);
  }

  lemma PackingStarts(p: Packing)
    ensures Joined([]) == [] && SizeOf(p, []) == 0 && Greedy(p, [])
  {
  }

  lemma JoinLast(done: seq<seq<Piece>>, current: seq<Piece>)
    ensures Joined(done + [current]) == Joined(done) + current
  {
    assert (done + [current])[..|done|] == done;
  }

  lemma OneMore(p: Packing, done: seq<seq<Piece>>, current: seq<Piece>, piece: Piece)
    requires Greedy(p, done) && p.fits(current + [piece])
    requires current != [] ==> Greedy(p, done + [current]) && SizeOf(p, current) + p.size(piece) <= p.batchBytes
    requires current == [] && done != [] ==> Full(p, done[|done| - 1], piece)
    ensures SizeOf(p, current + [piece]) == SizeOf(p, current) + p.size(piece)
    ensures Greedy(p, done + [current + [piece]])
  {
    hide SizeOf, Full;
    var grown := done + [current + [piece]];
    SizeOfMore(p, current, piece);
    forall b | b in grown ensures Sound(p, b) {
    }
    forall i | 0 < i < |grown| ensures grown[i] != [] && Full(p, grown[i - 1], grown[i][0]) {
      if i == |done| && current != [] {
        assert (done + [current])[i] == current && (done + [current])[i - 1] == done[i - 1];
      }
    }
  }

  lemma SizeOfMore(p: Packing, current: seq<Piece>, piece: Piece)
    ensures SizeOf(p, current + [piece]) == SizeOf(p, current) + p.size(piece)
  {
    assert (current + [piece])[..|current|] == current;
  }

  // ---------------------------------------------------------------- batches

  /** `available`: what the provider's context leaves for text, if it has a ceiling. */
  function ChunkSize(batchBytes: int, available: Option<int>): (chunk: Option<nat>)
    ensures chunk.None? <==> available.Some? && available.value <= 0
    ensures chunk.Some? ==> 1 <= chunk.value && (batchBytes >= 2048 ==> chunk.value <= batchBytes / 2)
    ensures chunk.Some? && available.Some? ==> chunk.value == 1 || 6 * chunk.value <= available.value
  {
    var half := if batchBytes / 2 > 1024 then batchBytes / 2 else 1024;
    match available
    case None => Some(half)
    case Some(room) =>
      if room <= 0 then None else
        var sixth := if room / 6 > 1 then room / 6 else 1;
        Some(if sixth < half then sixth else half)
  }

  function FilesOf(batches: seq<Batch>): (files: seq<seq<Piece>>)
    ensures |files| == |batches| && forall i :: 0 <= i < |batches| ==> files[i] == batches[i].files
  {
    seq(|batches|, i requires 0 <= i < |batches| => batches[i].files)
  }

  /** The pieces to review: a placeholder stands for no text at all. */
  function ToReview(files: seq<File>, chunk: nat): seq<Piece>
    requires chunk > 0
  {
    if Pieces(files, chunk) == [] then [NOTHING] else Pieces(files, chunk)
  }

  /** Nothing selected is lost, repeated or reordered by batching, and the batches
      are numbered in order.  (Checking every finished batch against the provider
      again, as the program does, changes nothing: each fits.) */
  method MakeBatches(files: seq<File>, limit: nat, available: Option<int>, p: Packing)
    returns (batches: Option<seq<Batch>>)
    ensures batches.Some? ==>
              && ChunkSize(p.batchBytes, available).Some?
              && Joined(FilesOf(batches.value)) == ToReview(files, ChunkSize(p.batchBytes, available).value)
              && Greedy(p, FilesOf(batches.value)) && TextBytes(files) <= limit
              && forall i :: 0 <= i < |batches.value| ==>
                   batches.value[i].index == i && batches.value[i].count == |batches.value|
    ensures batches.None? ==>
              || ChunkSize(p.batchBytes, available).None? || TextBytes(files) > limit
              || exists q :: q in ToReview(files, ChunkSize(p.batchBytes, available).value) && !p.fits([q])
  {
    hide Joined, Greedy, Pieces, TextBytes, ChunkSize;
    var chunk := ChunkSize(p.batchBytes, available);
    if chunk.None? {
      return None;
    }
    var pieces := CutFiles(files, chunk.value, limit);
    if pieces.None? {
      return None;
    }
    var all := if pieces.value == [] then [NOTHING] else pieces.value;
    var packed := Pack(p, all);
    if packed.None? {
      return None;
    }
    var n := |packed.value|;
    var numbered := seq(n, i requires 0 <= i < n => Batch(i, n, packed.value[i]));
    assert FilesOf(numbered) == packed.value;
    return Some(numbered);
  }

  // ---------------------------------------------------------------- what the pieces are

  /** The spans of a file follow each other without gap or overlap from the first
      byte to the last. */
  lemma {:induction false} SpansFollow(length: nat, offset: nat, chunk: nat)
    requires chunk > 0 && offset <= length
    ensures var spans := Spans(length, offset, chunk);
            && (forall i :: 0 < i < |spans| ==> spans[i].start == spans[i - 1].end)
            && (spans != [] ==> spans[0].start == offset && spans[|spans| - 1].end == length)
            && (spans == [] ==> offset == length)
    decreases length - offset
  {
    if offset < length {
      var spans := Spans(length, offset, chunk);
      var rest := Spans(length, spans[0].end, chunk);
      SpansFollow(length, spans[0].end, chunk);
      assert spans == [spans[0]] + rest;
      forall i | 0 < i < |spans| ensures spans[i].start == spans[i - 1].end {
        assert spans[i] == rest[i - 1];
        assert i > 1 ==> spans[i - 1] == rest[i - 2];
      }
    }
  }

  /** Put together, they are the bytes of the file. */
  lemma {:induction false} SpansTile(text: string, offset: nat, chunk: nat)
    requires chunk > 0 && offset <= |text|
    ensures Concat(Slices(text, Spans(|text|, offset, chunk))) == text[offset..]
    decreases |text| - offset
  {
    if offset < |text| {
      var spans := Spans(|text|, offset, chunk);
      var end := spans[0].end;
      SpansTile(text, end, chunk);
      var rest := Slices(text, Spans(|text|, end, chunk));
      assert spans == [spans[0]] + Spans(|text|, end, chunk);
      assert Slices(text, spans) == [text[offset..end]] + rest;
      assert ([text[offset..end]] + rest)[1..] == rest;
      assert text[offset..] == text[offset..end] + text[end..];
    }
  }

  function Slices(text: string, spans: seq<Span>): (slices: seq<string>)
    requires forall s :: s in spans ==> s.start < s.end <= |text|
  {
    seq(|spans|, i requires 0 <= i < |spans| => text[spans[i].start..spans[i].end])
  }

  function LastLine(first: nat, content: string): int {
    first + Count(content, NEWLINE) - if EndsLine(content) then 1 else 0
  }

  predicate FileHolds(f: Piece, paths: set<string>) {
    f.file in paths && f.lineStart >= 1 && f.lineEnd >= f.lineStart && |f.content| <= MAX_CONTENT
      && LastLine(f.lineStart, f.content) == f.lineEnd
  }

  /** The part of ReviewSnapshot.Validate about files. */
  method ValidateFiles(files: seq<Piece>, paths: set<string>) returns (ok: bool)
    ensures ok <==> files != [] && forall f :: f in files ==> FileHolds(f, paths)
  {
    if files == [] {
      return false;
    }
    for i := 0 to |files|
      invariant forall f :: f in files[..i] ==> FileHolds(f, paths)
    {
      var f := files[i];
      assert f in files;
      if f.file !in paths || f.lineStart < 1 || f.lineEnd < f.lineStart || |f.content| > MAX_CONTENT {
        return false;
      }
      if LastLine(f.lineStart, f.content) != f.lineEnd {
        return false;
      }
    }
    return true;
  }

  /** Every piece has the line range that validation computes from its content. */
  lemma PieceIsValid(path: string, text: string, s: Span, paths: set<string>)
    requires s.start < s.end <= |text| && path in paths && 3 * (s.end - s.start) <= MAX_CONTENT
    ensures FileHolds(PieceOf(path, text, s), paths)
  {
    var raw := text[s.start..s.end];
    ToValidExactly(raw);
    ReplacedKeepsLines(raw, false);
    assert raw[..|raw| - 1] == text[s.start..s.end - 1];
  }

  /** The next piece starts on the line this one ends on, or on the next line when
      this one ends with a newline. */
  lemma RangesChain(path: string, text: string, s: Span, t: Span)
    requires s.start < s.end == t.start < t.end <= |text|
    ensures PieceOf(path, text, t).lineStart ==
            PieceOf(path, text, s).lineEnd + if text[s.end - 1] == NEWLINE then 1 else 0
  {
    hide ToValid, Replaced, Valid, CharLength;
    assert text[..s.end] == text[..s.start] + text[s.start..s.end];
    CountAppend(text[..s.start], text[s.start..s.end], NEWLINE);
    var raw := text[s.start..s.end];
    assert raw[..|raw| - 1] == text[s.start..s.end - 1];
  }

  /** Every piece of every batch passes the check on files. */
  lemma {:induction false} AllPiecesAreValid(files: seq<File>, chunk: nat, paths: set<string>)
    requires chunk > 0 && 3 * chunk <= MAX_CONTENT && "<none>" in paths
    requires forall f :: f in files ==> f.path in paths
    ensures forall q :: q in ToReview(files, chunk) ==> FileHolds(q, paths)
  {
    if files != [] {
      var last := files[|files| - 1];
      AllPiecesAreValid(files[..|files| - 1], chunk, paths);
      forall q | q in FilePieces(last, chunk) ensures FileHolds(q, paths) {
        var spans := Spans(|last.text|, 0, chunk);
        var i :| 0 <= i < |spans| && q == PieceOf(last.path, last.text, spans[i]);
        assert spans[i] in spans;
        PieceIsValid(last.path, last.text, spans[i], paths);
      }
    }
    NothingIsValid(paths);
  }

  lemma NothingIsValid(paths: set<string>)
    requires "<none>" in paths
    ensures FileHolds(NOTHING, paths)
  {
    assert forall s: string :: NEWLINE !in s ==> Count(s, NEWLINE) == 0 by {
      forall s: string | NEWLINE !in s ensures Count(s, NEWLINE) == 0 {
        NoNewline(s);
      }
    }
  }

  lemma {:induction false} NoNewline(s: string)
    requires NEWLINE !in s
    ensures Count(s, NEWLINE) == 0
  {
    if s != "" {
      NoNewline(s[..|s| - 1]);
    }
  }

  // ---------------------------------------------------------------- changed files first

  /** The order of the sort: changed files, then by encoded path. */
  predicate Before(a: File, b: File, changed: set<string>, less: (string, string) -> bool) {
    if a.path in changed <==> b.path in changed then less(a.key, b.key) else a.path in changed
  }

  ghost predicate Sorted(files: seq<File>, changed: set<string>, less: (string, string) -> bool) {
    forall i, j :: 0 <= i < j < |files| ==> !Before(files[j], files[i], changed, less)
  }

  ghost predicate ChangedLead(pieces: seq<Piece>, changed: set<string>) {
    forall i, j :: 0 <= i < j < |pieces| && pieces[j].file in changed ==> pieces[i].file in changed
  }

  /** Once a piece of an unchanged file has come, no piece of a changed file follows. */
  lemma {:induction false} ChangedComesFirst(files: seq<File>, chunk: nat, changed: set<string>,
                                             less: (string, string) -> bool)
    requires chunk > 0 && Sorted(files, changed, less)
    ensures ChangedLead(Pieces(files, chunk), changed)
  {
    if files != [] {
      var some, last := files[..|files| - 1], files[|files| - 1];
      ChangedComesFirst(some, chunk, changed, less);
      var before, added := Pieces(some, chunk), FilePieces(last, chunk);
      EarlierChanged(files, chunk, changed, less);
      var all := before + added;
      forall i, j | 0 <= i < j < |all| && all[j].file in changed ensures all[i].file in changed {
        if j < |before| {
          assert all[i] == before[i] && all[j] == before[j];
          assert before[j].file in changed;
        } else if i < |before| {
          assert all[j] in added && all[i] in before;
        } else {
          assert all[j] in added && all[i] in added;
        }
      }
    }
  }

  lemma EarlierChanged(files: seq<File>, chunk: nat, changed: set<string>, less: (string, string) -> bool)
    requires chunk > 0 && Sorted(files, changed, less) && files != []
    ensures var last := files[|files| - 1];
            && (forall q :: q in FilePieces(last, chunk) ==> q.file == last.path)
            && (last.path in changed ==> forall q :: q in Pieces(files[..|files| - 1], chunk) ==> q.file in changed)
  {
    var some, last := files[..|files| - 1], files[|files| - 1];
    forall q | q in Pieces(some, chunk) && last.path in changed ensures q.file in changed {
      FromSomeFile(some, chunk, q);
      var f :| f in some && f.path == q.file;
      var k :| 0 <= k < |some| && some[k] == f;
      assert !Before(files[|files| - 1], files[k], changed, less);
    }
  }

  lemma {:induction false} FromSomeFile(files: seq<File>, chunk: nat, q: Piece)
    requires chunk > 0 && q in Pieces(files, chunk)
    ensures exists f :: f in files && f.path == q.file
  {
    var some, last := files[..|files| - 1], files[|files| - 1];
    if q in Pieces(some, chunk) {
      FromSomeFile(some, chunk, q);
      var f :| f in some && f.path == q.file;
      assert f in files;
    } else {
      assert q.file == last.path && last in files;
    }
  }
}

/** What reviewers get, told without the functions that cut and pack: which bytes and
    lines each piece is, how large pieces are, and that no division into batches
    within the limits is shorter (internal/audit/review.go 205-219 and 593-717). */
module ReviewPieces {
  import opened Text
  import opened Utf8
  import opened ReviewBatches

  // ---------------------------------------------------------------- cutting

  /** The size of the pieces is the largest one that is at most 1024 bytes or half a
      batch, whichever is more, and at six bytes of JSON for each byte still leaves
      room in the provider's context; it is never below one. */
  lemma ChunkSizeIsLargest(batchBytes: int, available: Option<int>, n: nat)
    requires ChunkSize(batchBytes, available).Some?
    ensures n <= ChunkSize(batchBytes, available).value <==>
            || n <= 1
            || ((n <= 1024 || 2 * n <= batchBytes) && (available.Some? ==> 6 * n <= available.value))
  {
  }

  /** Where the lines before place `to` end. */
  function Newlines(text: string, to: nat): set<int>
    requires to <= |text|
  {
    set i | 0 <= i < to && text[i] == '\n'
  }

  lemma CountBefore(text: string, to: nat)
    requires to <= |text|
    ensures Count(text[..to], '\n') == |Newlines(text, to)|
  {
    var s := text[..to];
    CountIsNumber(s, '\n');
    assert (set i | 0 <= i < |s| && s[i] == '\n') == Newlines(text, to);
  }

  lemma LinesExactly(path: string, text: string, s: Span)
    requires s.start < s.end <= |text|
    ensures var piece := PieceOf(path, text, s);
            && piece.lineStart == 1 + |Newlines(text, s.start)|
            && piece.lineEnd == 1 + |Newlines(text, s.end - 1)|
  {
    hide ToValid, Count, Newlines;
    CountBefore(text, s.start);
    CountBefore(text, s.end - 1);
    assert text[..s.end - 1] == text[..s.start] + text[s.start..s.end - 1];
    CountAppend(text[..s.start], text[s.start..s.end - 1], '\n');
  }

  /** The pieces of a file are its stretches of `chunk` bytes, in order, the last one
      shorter; each is told its offset and the lines it covers, counted from one. */
  lemma PiecesExactly(f: File, chunk: nat, i: nat)
    requires chunk > 0 && i < |FilePieces(f, chunk)|
    ensures (|FilePieces(f, chunk)| - 1) * chunk < |f.text| <= |FilePieces(f, chunk)| * chunk
    ensures var from, to := i * chunk, if (i + 1) * chunk <= |f.text| then (i + 1) * chunk else |f.text|;
            var piece := FilePieces(f, chunk)[i];
            && from < to && piece.file == f.path && piece.offset == from && piece.content == ToValid(f.text[from..to])
            && piece.lineStart == 1 + |Newlines(f.text, from)|
            && piece.lineEnd == 1 + |Newlines(f.text, to - 1)|
  {
    hide ToValid, Count, Newlines, Spans, PiecesOf;
    var spans := Spans(|f.text|, 0, chunk);
    SpansAt(|f.text|, 0, chunk, i);
    SpansNumber(|f.text|, 0, chunk);
    OneTimeMore(i + 1, chunk);
    assert spans[i] in spans;
    LinesExactly(f.path, f.text, spans[i]);
  }

  lemma OneTimeMore(i: int, chunk: int)
    ensures i * chunk == (i - 1) * chunk + chunk
  {
  }

  lemma {:induction false} SpansAt(length: nat, offset: nat, chunk: nat, i: nat)
    requires chunk > 0 && offset <= length && i < |Spans(length, offset, chunk)|
    ensures var spans, from := Spans(length, offset, chunk), offset + i * chunk;
            && spans[i].start == from
            && spans[i].end == (if from + chunk <= length then from + chunk else length)
    decreases length - offset
  {
    if i > 0 {
      var spans := Spans(length, offset, chunk);
      var rest := Spans(length, spans[0].end, chunk);
      assert spans == [spans[0]] + rest;
      SpansAt(length, spans[0].end, chunk, i - 1);
      OneTimeMore(i, chunk);
    }
  }

  lemma {:induction false} SpansNumber(length: nat, offset: nat, chunk: nat)
    requires chunk > 0 && offset < length
    ensures var n := |Spans(length, offset, chunk)|; offset + (n - 1) * chunk < length <= offset + n * chunk
    decreases length - offset
  {
    var spans := Spans(length, offset, chunk);
    var n := |spans|;
    OneTimeMore(n, chunk);
    if offset + chunk < length {
      assert spans[1..] == Spans(length, offset + chunk, chunk);
      SpansNumber(length, offset + chunk, chunk);
      OneTimeMore(n - 1, chunk);
    } else {
      assert spans == [Span(offset, length)] + Spans(length, length, chunk);
      OneTimeMore(1, chunk);
    }
  }

  /** Files without text have no pieces, all others do. */
  lemma NoPiecesExactly(f: File, chunk: nat)
    requires chunk > 0
    ensures FilePieces(f, chunk) == [] <==> f.text == ""
  {
  }

  /** The pieces of a file stand together, behind those of the files before it. */
  lemma {:induction false} FilesStandInOrder(files: seq<File>, chunk: nat, i: nat)
    requires chunk > 0 && i < |files|
    ensures Pieces(files[..i], chunk) + FilePieces(files[i], chunk) <= Pieces(files, chunk)
  {
    hide FilePieces;
    if i == |files| - 1 {
    } else {
      FilesStandInOrder(files[..|files| - 1], chunk, i);
      assert files[..|files| - 1][..i] == files[..i];
    }
  }

  function Texts(files: seq<File>): (texts: seq<string>)
    ensures |texts| == |files| && forall i :: 0 <= i < |files| ==> texts[i] == files[i].text
  {
    seq(|files|, i requires 0 <= i < |files| => files[i].text)
  }

  /** What the aggregate limit is compared with is the length of all texts together. */
  lemma {:induction false} TextBytesExactly(files: seq<File>)
    ensures TextBytes(files) == |Concat(Texts(files))|
  {
    if files != [] {
      var some, last := files[..|files| - 1], files[|files| - 1];
      TextBytesExactly(some);
      assert Texts(files) == Texts(some) + [last.text];
      ConcatAppend(Texts(some), [last.text]);
      assert Concat([last.text]) == last.text + Concat([]);
    }
  }

  // ---------------------------------------------------------------- packing

  /** A batch the provider can be asked about. */
  predicate Admissible(p: Packing, batch: seq<Piece>) {
    batch != [] && p.fits(batch) && (|batch| == 1 || SizeOf(p, batch) <= p.batchBytes)
  }

  /** What fits the context still fits with pieces left off at the ends. */
  ghost predicate FewerFit(p: Packing) {
    forall s: seq<Piece>, a: nat, b: nat :: a < b <= |s| && p.fits(s) ==> p.fits(s[a..b])
  }

  lemma {:induction false} SizeOfAppend(p: Packing, a: seq<Piece>, b: seq<Piece>)
    ensures SizeOf(p, a + b) == SizeOf(p, a) + SizeOf(p, b)
  {
    if b == [] {
      assert a + b == a;
    } else {
      SizeOfAppend(p, a, b[..|b| - 1]);
      assert (a + b)[..|a + b| - 1] == a + b[..|b| - 1];
    }
  }

  lemma SizeOfPart(p: Packing, s: seq<Piece>, a: nat, b: nat)
    requires a <= b <= |s|
    ensures SizeOf(p, s[a..b]) <= SizeOf(p, s)
  {
    assert s == s[..a] + s[a..b] + s[b..];
    SizeOfAppend(p, s[..a] + s[a..b], s[b..]);
    SizeOfAppend(p, s[..a], s[a..b]);
  }

  /** Batch `k` is the stretch of pieces between the ends of the batches. */
  lemma {:induction false} BatchIsStretch(batches: seq<seq<Piece>>, k: nat)
    requires k < |batches|
    ensures var from, to := |Joined(batches[..k])|, |Joined(batches[..k + 1])|;
            from <= to <= |Joined(batches)| && batches[k] == Joined(batches)[from..to]
    decreases |batches|
  {
    var init := batches[..|batches| - 1];
    if k == |batches| - 1 {
      assert batches[..k] == init && batches[..k + 1] == batches;
    } else {
      BatchIsStretch(init, k);
      assert init[..k] == batches[..k] && init[..k + 1] == batches[..k + 1];
    }
  }

  /** Where the first `k` batches end. */
  function EndOf(batches: seq<seq<Piece>>, k: nat): nat
    requires k <= |batches|
  {
    |Joined(batches[..k])|
  }

  lemma {:induction false} StaysAhead(p: Packing, batches: seq<seq<Piece>>, others: seq<seq<Piece>>, k: nat)
    requires Greedy(p, batches) && FewerFit(p) && forall b :: b in others ==> Admissible(p, b)
    requires Joined(others) == Joined(batches) && k <= |others| && k <= |batches|
    ensures EndOf(others, k) <= EndOf(batches, k)
  {
    hide SizeOf, Joined, Greedy, Admissible, FewerFit, Full, EndOf;
    if k == 0 {
      NothingEnds(batches);
      NothingEnds(others);
    } else if k == |batches| {
      EndsWithin(others, k);
      AllEnds(batches);
    } else {
      StaysAhead(p, batches, others, k - 1);
      GreedyAt(p, batches, k);
      assert others[k - 1] in others;
      NextDoesNotFit(p, Joined(batches), batches, others, k - 1);
    }
  }

  lemma NothingEnds(batches: seq<seq<Piece>>)
    ensures EndOf(batches, 0) == 0
  {
    assert batches[..0] == [];
  }

  lemma AllEnds(batches: seq<seq<Piece>>)
    ensures EndOf(batches, |batches|) == |Joined(batches)|
  {
    assert batches[..|batches|] == batches;
  }

  lemma EndsWithin(batches: seq<seq<Piece>>, k: nat)
    requires k <= |batches|
    ensures EndOf(batches, k) <= |Joined(batches)|
  {
    hide Joined;
    if k == |batches| {
      AllEnds(batches);
    } else {
      BatchIsStretch(batches, k);
    }
  }

  lemma NextDoesNotFit(p: Packing, all: seq<Piece>, batches: seq<seq<Piece>>, others: seq<seq<Piece>>, k: nat)
    requires FewerFit(p) && all == Joined(others) == Joined(batches) && k < |others| && k + 1 < |batches|
    requires batches[k] != [] && batches[k + 1] != [] && Full(p, batches[k], batches[k + 1][0])
    requires Admissible(p, others[k]) && EndOf(others, k) <= EndOf(batches, k)
    ensures EndOf(others, k + 1) <= EndOf(batches, k + 1)
  {
    hide Joined, FewerFit, Admissible, Full, EndOf;
    StretchOf(batches, k, all);
    StretchOf(batches, k + 1, all);
    StretchOf(others, k, all);
    Overlap(p, all, batches[k], batches[k + 1], others[k], EndOf(batches, k), EndOf(batches, k + 1),
            EndOf(batches, k + 2), EndOf(others, k), EndOf(others, k + 1));
  }

  lemma StretchOf(batches: seq<seq<Piece>>, k: nat, all: seq<Piece>)
    requires k < |batches| && all == Joined(batches)
    ensures EndOf(batches, k) <= EndOf(batches, k + 1) <= |all|
    ensures batches[k] == all[EndOf(batches, k)..EndOf(batches, k + 1)]
  {
    hide Joined;
    BatchIsStretch(batches, k);
  }

  /** An admissible stretch that begins no later than a full batch ends no later. */
  lemma Overlap(p: Packing, all: seq<Piece>, batch: seq<Piece>, next: seq<Piece>, other: seq<Piece>, from: nat,
                to: nat, end: nat, a: nat, b: nat)
    requires a <= from <= to <= end <= |all| && a <= b <= |all|
    requires batch == all[from..to] && next == all[to..end] && other == all[a..b] && batch != [] && next != []
    requires Full(p, batch, next[0]) && FewerFit(p) && Admissible(p, other)
    ensures b <= to
  {
    hide FewerFit, Admissible, Full;
    if b > to {
      Stretches(all, from, to, end, a, b);
      TooMuch(p, batch, next[0], other, from - a, to + 1 - a);
    }
  }

  lemma GreedyAt(p: Packing, batches: seq<seq<Piece>>, k: nat)
    requires Greedy(p, batches) && 0 < k < |batches|
    ensures batches[k - 1] != [] && batches[k] != [] && Full(p, batches[k - 1], batches[k][0])
  {
    hide Full;
    assert batches[k - 1] in batches;
  }

  lemma Stretches(all: seq<Piece>, from: nat, to: nat, end: nat, a: nat, b: nat)
    requires a <= from <= to < end <= |all| && to < b <= |all|
    ensures all[a..b][from - a..to + 1 - a] == all[from..to] + [all[to..end][0]]
  {
    var whole := all[a..b];
    var part, same := whole[from - a..to + 1 - a], all[from..to] + [all[to..end][0]];
    assert |part| == |same|;
    forall i | 0 <= i < |part| ensures part[i] == same[i] {
      assert part[i] == whole[from - a + i] == all[from + i];
    }
  }

  lemma TooMuch(p: Packing, batch: seq<Piece>, next: Piece, other: seq<Piece>, a: nat, b: nat)
    requires batch != [] && Full(p, batch, next) && FewerFit(p) && Admissible(p, other) && a < b <= |other|
    ensures other[a..b] != batch + [next]
  {
    hide SizeOf;
    SizeOfPart(p, other, a, b);
    SizeOfMore(p, batch, next);
  }

  lemma NotTheWhole(batches: seq<seq<Piece>>, k: nat)
    requires k < |batches| && forall b :: b in batches ==> b != []
    ensures EndOf(batches, k) < |Joined(batches)|
  {
    hide Joined, EndOf;
    StretchOf(batches, k, Joined(batches));
    assert batches[k] in batches;
  }

  /** The batches are admissible, and no other division of the same pieces, in the
      same order, into admissible batches has fewer. */
  lemma FewestBatches(p: Packing, batches: seq<seq<Piece>>, others: seq<seq<Piece>>)
    requires Greedy(p, batches) && FewerFit(p) && forall b :: b in others ==> Admissible(p, b)
    requires Joined(others) == Joined(batches)
    ensures |batches| <= |others|
    ensures forall b :: b in batches ==> Admissible(p, b)
  {
    hide SizeOf, Joined, FewerFit, EndOf;
    if |others| < |batches| {
      StaysAhead(p, batches, others, |others|);
      AllEnds(others);
      NotTheWhole(batches, |others|);
    }
  }
}

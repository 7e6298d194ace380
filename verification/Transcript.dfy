/** The build transcript of internal/audit/resource.go 424-485: a buffer that keeps
    the most recent bytes of two output streams. */
module Transcript {
  import opened Text

  /** The last `n` characters of `s`, or all of it. */
  function Last(s: string, n: nat): (r: string)
    ensures |r| == if |s| < n then |s| else n
  {
    if |s| <= n then s else s[|s| - n..]
  }

  /** A single write that fills the whole window. */
  predicate Fills(writes: seq<string>, limit: int) {
    exists w :: w in writes && |w| >= limit
  }

  /** What the buffer holds is the end of the output: all of it up to the limit,
      and always at least the limit and less than twice as much. */
  predicate Held(content: string, dropped: bool, writes: seq<string>, limit: nat) {
    var all := Concat(writes);
    && content == Last(all, |content|) && |content| <= |all|
    && |content| < 2 * limit && (|content| < limit ==> content == all)
    && (dropped <==> |all| > limit || Fills(writes, limit))
    && (!dropped ==> content == all)
  }

  // ---------------------------------------------------------------- arrays

  /** Writes `value` at `at`. */
  method CopyInto(a: array<char>, at: nat, value: string)
    requires at + |value| <= a.Length
    modifies a
    ensures a[..at + |value|] == old(a[..at]) + value
  {
    for i := 0 to |value|
      invariant forall j :: 0 <= j < at ==> a[j] == old(a[j])
      invariant forall j :: 0 <= j < i ==> a[at + j] == value[j]
    {
      a[at + i] := value[i];
    }
  }

  /** Moves n characters from `skip` to the front.  Source and destination overlap;
      going left to right never reads a character that was already overwritten. */
  method ShiftLeft(a: array<char>, skip: nat, n: nat)
    requires skip + n <= a.Length
    modifies a
    ensures a[..n] == old(a[skip..skip + n])
  {
    for i := 0 to n
      invariant forall j :: 0 <= j < i ==> a[j] == old(a[skip + j])
      invariant forall j :: i <= j < a.Length ==> a[j] == old(a[j])
    {
      a[i] := a[skip + i];
    }
  }

  // ---------------------------------------------------------------- the transcript

  /** `writes` is what was observed so far, in order. */
  class OutputTranscript {
    var buffer: array<char>
    var length: nat
    const limit: nat
    var dropped: bool
    ghost var writes: seq<string>

    ghost predicate Valid()
      reads this, buffer
    {
      && length <= buffer.Length
      && (limit == 0 ==> length == 0 && !dropped)
      && (limit > 0 ==> Held(buffer[..length], dropped, writes, limit))
    }

    constructor (limit: int)
      ensures Valid() && writes == [] && this.limit == (if limit <= 0 then 0 else limit) && fresh(buffer)
    {
      this.limit := if limit <= 0 then 0 else limit;
      buffer, length, dropped, writes := new char[0], 0, false, [];
      new;
      assert buffer[..length] == "";
    }

    /** append(buffer, value...): in place while there is room, into a larger array
        otherwise. */
    method Append(value: string)
      requires length <= buffer.Length
      modifies this`buffer, this`length, buffer
      ensures length <= buffer.Length && buffer[..length] == old(buffer[..length]) + value
      ensures buffer == old(buffer) || fresh(buffer)
    {
      var end := length + |value|;
      if end > buffer.Length {
        var larger := new char[2 * end];
        CopyInto(larger, 0, buffer[..length]);
        buffer := larger;
        assert buffer[..length] == old(buffer[..length]);
      }
      CopyInto(buffer, length, value);
      length := end;
    }

    method Observe(value: string)
      requires Valid()
      modifies this, buffer
      ensures Valid() && writes == if value == "" then old(writes) else old(writes) + [value]
      ensures buffer == old(buffer) || fresh(buffer)
    {
      hide Held;
      if value == "" {
        return;
      }
      writes := writes + [value];
      if limit == 0 {
        return;
      }
      HeldNext(buffer[..length], dropped, old(writes), value, limit);
      if |value| >= limit {
        length := 0;
        Append(value[|value| - limit..]);
        assert buffer[..length] == value[|value| - limit..];
        dropped := true;
        return;
      }
      Append(value);
      if length <= limit {
        return;
      }
      if length >= 2 * limit {
        ghost var content := buffer[..length];
        ShiftLeft(buffer, length - limit, limit);
        assert content[length - limit..] == old(buffer[..length] + value)[length - limit..];
        length := limit;
      }
      dropped := true;
    }

    /** The last `limit` bytes of everything observed; an unset flag says that this
        is everything. */
    method Bytes() returns (bytes: string, missing: bool)
      requires Valid()
      ensures limit > 0 ==> bytes == Last(Concat(writes), limit)
      ensures limit > 0 ==> (missing <==> |Concat(writes)| > limit || Fills(writes, limit))
      ensures limit > 0 && !missing ==> bytes == Concat(writes)
      ensures limit == 0 ==> bytes == "" && !missing
    {
      if limit > 0 && length > limit {
        bytes := buffer[length - limit..length];
        assert bytes == buffer[..length][length - limit..];
        return bytes, dropped;
      }
      return buffer[..length], dropped;
    }
  }

  /** What each branch of Observe leaves in the buffer. */
  lemma HeldNext(content: string, dropped: bool, writes: seq<string>, value: string, limit: nat)
    requires limit > 0 && value != "" && Held(content, dropped, writes, limit)
    ensures |value| >= limit ==> Held(value[|value| - limit..], true, writes + [value], limit)
    ensures |value| < limit && |content + value| <= limit ==> Held(content + value, dropped, writes + [value], limit)
    ensures |value| < limit && limit < |content + value| < 2 * limit ==>
              Held(content + value, true, writes + [value], limit)
    ensures |value| < limit && |content + value| >= 2 * limit ==>
              Held((content + value)[|content + value| - limit..], true, writes + [value], limit)
  {
    hide Concat, Fills;
    var all := Concat(writes);
    assert Concat(writes + [value]) == all + value by { ConcatAppend(writes, [value]); ConcatOne(value); }
    FillsMore(writes, value, limit);
    assert content + value == Last(all + value, |content + value|);
  }

  lemma ConcatOne(value: string)
    ensures Concat([value]) == value
  {
    assert value + "" == value;
  }

  lemma FillsMore(writes: seq<string>, value: string, limit: int)
    ensures Fills(writes + [value], limit) <==> Fills(writes, limit) || |value| >= limit
  {
    assert value in writes + [value];
    if Fills(writes, limit) {
      var w :| w in writes && |w| >= limit;
      assert w in writes + [value];
    }
  }

  /** Without a limit the transcript keeps nothing and does not say so. */
  method UnlimitedDropsInSilence(limit: int, value: string) returns (bytes: string, missing: bool)
    requires value != "" && limit <= 0
    ensures bytes == "" && !missing
  {
    var t := new OutputTranscript(limit);
    t.Observe(value);
    bytes, missing := t.Bytes();
  }
}

/** Every header prefix that the xz dictionary check of internal/brief/archives.go
    258-331 lets pass. */
module XzAccepted {
  import opened Text
  import opened XzHeader

  /** The filters that stand at the front of `bytes`: for each an ID, the length of
      its properties and the properties. */
  ghost predicate Stand(bytes: seq<Byte>, filters: seq<Filter>)
    decreases |filters|
  {
    filters == [] ||
    var id := Decode(bytes, 9);
    && id.Some? && id.value.value == filters[0].id
    && var length := Decode(id.value.rest, 9);
       && length.Some? && length.value.value == |filters[0].properties|
       && filters[0].properties <= length.value.rest
       && Stand(length.value.rest[|filters[0].properties|..], filters[1..])
  }

  /** No one-byte property of an LZMA2 filter is above 30, which stands for 128 MiB. */
  predicate Small(filters: seq<Filter>) {
    forall i :: 0 <= i < |filters| && filters[i].id == 0x21 && |filters[i].properties| == 1 ==>
      filters[i].properties[0] <= 30
  }

  lemma SmallExactly(f: Filter)
    ensures CheckFilter(f.id, f.properties).None? <==> Small([f])
  {
    hide DictionarySize;
    if f.id == LZMA2 && |f.properties| == 1 && f.properties[0] <= 40 {
      LimitIsThirty(f.properties[0]);
    }
    assert [f][0] == f;
  }

  lemma {:induction false} FiltersPassExactly(bytes: seq<Byte>, count: nat)
    ensures CheckFilters(bytes, count).None? <==>
            exists filters :: |filters| == count && Stand(bytes, filters) && Small(filters)
    decreases count
  {
    if CheckFilters(bytes, count).None? {
      var filters := FiltersOf(bytes, count);
    }
    if filters :| |filters| == count && Stand(bytes, filters) && Small(filters) {
      SmallPass(bytes, filters);
    }
  }

  lemma {:induction false} FiltersOf(bytes: seq<Byte>, count: nat) returns (filters: seq<Filter>)
    requires CheckFilters(bytes, count).None?
    ensures |filters| == count && Stand(bytes, filters) && Small(filters)
    decreases count
  {
    hide CheckFilters, Decode, CheckFilter, Small;
    if count == 0 {
      filters := [];
      NoneIsSmall();
    } else {
      FiltersStep(bytes, count);
      var id := Decode(bytes, 9).value;
      var length := Decode(id.rest, 9).value;
      var f := Filter(id.value, length.rest[..length.value]);
      SmallExactly(f);
      var more := FiltersOf(length.rest[length.value..], count - 1);
      filters := [f] + more;
      OneMoreSmall(f, more);
      assert filters[1..] == more;
    }
  }

  lemma NoneIsSmall()
    ensures Small([])
  {
  }

  lemma OneMoreSmall(f: Filter, more: seq<Filter>)
    ensures Small([f] + more) <==> Small([f]) && Small(more)
  {
    var all := [f] + more;
    assert [f][0] == f && all[0] == f && forall i :: 0 <= i < |more| ==> all[i + 1] == more[i];
    if Small([f]) && Small(more) {
      forall i | 0 <= i < |all| && all[i].id == 0x21 && |all[i].properties| == 1 ensures all[i].properties[0] <= 30 {
        if i > 0 {
          assert all[i] == more[i - 1];
        }
      }
    }
    if Small(all) {
      forall i | 0 <= i < |more| && more[i].id == 0x21 && |more[i].properties| == 1
        ensures more[i].properties[0] <= 30
      {
        assert all[i + 1] == more[i];
      }
    }
  }

  lemma {:induction false} SmallPass(bytes: seq<Byte>, filters: seq<Filter>)
    requires Stand(bytes, filters) && Small(filters)
    ensures CheckFilters(bytes, |filters|).None?
    decreases |filters|
  {
    hide CheckFilters, Decode, CheckFilter, Small;
    if filters == [] {
      FiltersEnd(bytes);
    } else {
      var f, more := filters[0], filters[1..];
      assert filters == [f] + more;
      OneMoreSmall(f, more);
      SmallExactly(f);
      FiltersStep(bytes, |filters|);
      var length := Decode(Decode(bytes, 9).value.rest, 9).value;
      assert length.rest[..length.value] == f.properties;
      SmallPass(length.rest[length.value..], more);
    }
  }

  /** What stands behind an optional size field, if it can be read. */
  function Behind(bytes: seq<Byte>, present: bool): Option<seq<Byte>> {
    if !present then Some(bytes)
    else if Decode(bytes, 9).Some? then Some(Decode(bytes, 9).value.rest)
    else None
  }

  /** A prefix passes exactly if, behind the twelve bytes of the stream header, it
      has the index indicator, or a whole block header: flags, the sizes the two
      top bits announce, and as many filters as the two lowest bits say, without a
      dictionary above the limit. */
  lemma PassesExactly(head: seq<Byte>)
    ensures CheckHead(head).None? <==>
            && |head| > 12
            && (head[12] == 0 ||
                (var size := 4 * (head[12] as int + 1);
                 && |head| >= 12 + size
                 && var body := head[13..12 + size];
                    var first := Behind(body[1..], body[0] / 64 % 2 == 1);
                    first.Some? &&
                    var second := Behind(first.value, body[0] / 128 == 1);
                    second.Some? &&
                    exists filters :: |filters| == body[0] % 4 + 1 && Stand(second.value, filters) && Small(filters)))
  {
    hide CheckFilters, Decode, Stand, Small;
    if |head| > 12 && head[12] != 0 {
      var size := 4 * (head[12] as int + 1);
      if |head| >= 12 + size {
        var body := head[13..12 + size];
        assert head[12..][1..size] == body;
        var first := Behind(body[1..], body[0] / 64 % 2 == 1);
        if first.Some? {
          var second := Behind(first.value, body[0] / 128 == 1);
          if second.Some? {
            FiltersPassExactly(second.value, body[0] % 4 + 1);
          }
        }
      }
    }
  }
}

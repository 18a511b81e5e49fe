/** Reading a memory region through a position (citrus_memstream.h). */
module CitrusMemstream {
  import opened Octets
  import opened Options
  import opened CitrusBcs
  import opened CitrusText

  class Memstream {
    const region: seq<octet>
    var pos: nat

    /** `_citrus_memory_stream_bind` */
    constructor (region: seq<octet>)
      ensures this.region == region && pos == 0
    {
      this.region, pos := region, 0;
    }

    /** `_citrus_memory_stream_remainder` */
    method Remainder() returns (n: nat)
      ensures n == if pos > |region| then 0 else |region| - pos
    {
      var sz := |region|;
      if pos > sz {
        return 0;
      }
      return sz - pos;
    }

    /** `_citrus_memory_stream_seek` with SEEK_SET: the end of the region is not a position. */
    method Seek(p: nat) returns (ok: bool)
      modifies this
      ensures ok <==> p < |region|
      ensures pos == if ok then p else old(pos)
    {
      if p >= |region| {
        return false;
      }
      pos := p;
      return true;
    }

    /** `_citrus_memory_stream_getregion`: the next sz bytes. */
    method GetRegion(sz: nat) returns (r: Option<seq<octet>>)
      modifies this
      ensures r.Some? <==> old(pos) + sz <= |region|
      ensures r.Some? ==> r.value == region[old(pos)..old(pos) + sz] && pos == old(pos) + sz
      ensures r.None? ==> pos == old(pos)
    {
      if pos + sz > |region| {
        return None;
      }
      r := Some(region[pos..pos + sz]);
      pos := pos + sz;
    }

    /** `_citrus_memory_stream_getln`: where the next line starts and how long it is, if there is one. */
    method GetLine() returns (some: bool, h: nat, len: nat)
      modifies this
      ensures some <==> old(pos) < |region|
      ensures !some ==> pos == old(pos)
      ensures some ==> h == old(pos) && pos == h + len == LineEnd(region, h, true)
    {
      if pos >= |region| {
        return false, 0, 0;
      }
      var p, ret := pos, 0;
      for i := |region| - pos downto 0
        invariant p == pos + ret && ret == |region| - pos - i
        invariant i > 0 ==> LineEnd(region, p, true) == LineEnd(region, pos, true)
        invariant i == 0 ==> LineEnd(region, pos, true) == |region|
      {
        ret := ret + 1;
        if IsEol(region[p]) {
          break;
        }
        p := p + 1;
      }
      some, h, len := true, pos, ret;
      pos := pos + ret;
    }

    /** Where the word and the data are on the line of len0 bytes at p0: the inner part of
        `_citrus_memory_stream_matchline`. */
    method ScanLine(p0: nat, len0: nat) returns (x: Option<Spot>)
      requires p0 + len0 <= |region|
      ensures x == PlainSpot(region, p0, p0 + len0)
    {
      var len := CommentAt(region, p0, p0 + len0) - p0;
      len := TruncRwsLen(region, p0, len);
      if len == 0 {
        return None;
      }
      var p, d, q;
      p, len := SkipWsLen(region, p0, len);
      q, len := SkipNonwsLen(region, p, len);
      d, len := SkipWsLen(region, q, len);
      return Some(Spot(p, q, d, d + len));
    }

    /** Whether the word is the key up to case. */
    method SameWord(x: Spot, key: seq<octet>) returns (same: bool)
      requires NoNul(key) && x.p <= x.q <= |region| && NoNul(region[x.p..x.q])
      ensures same <==> Lower(region[x.p..x.q]) == Lower(key)
    {
      var word := region[x.p..x.q];
      if x.q - x.p != |key| {
        assert |Lower(word)| != |Lower(key)|;
        return false;
      }
      assert key[..|key|] == key && word[..|key|] == word;
      same := StrnCaseEqual(key, word, |key|);
    }

    method TryLine(p0: nat, len0: nat, key: seq<octet>) returns (data: Option<seq<octet>>)
      requires NoNul(key) && p0 + len0 <= |region|
      ensures data == FindOn(region, p0, p0 + len0, key)
    {
      var x := ScanLine(p0, len0);
      if x == None {
        return None;
      }
      WordEndIs(region, x.value.p, x.value.q, x.value.e);
      var same := SameWord(x.value, key);
      return if same then Some(region[x.value.d..x.value.e]) else None;
    }

    /** `_citrus_memory_stream_matchline`, ignoring case: the data of the next line with the key. */
    method MatchLine(key: seq<octet>) returns (data: Option<seq<octet>>)
      requires NoNul(key) && pos <= |region|
      modifies this
      ensures data == FindFrom(region, old(pos), key)
      ensures pos <= |region|
    {
      hide FindOn;
      ghost var goal := FindFrom(region, pos, key);
      while true
        invariant pos <= |region| && FindFrom(region, pos, key) == goal
        decreases |region| - pos
      {
        var some, p, len := GetLine();
        if !some {
          return None;
        }
        data := TryLine(p, len, key);
        if data.Some? {
          return;
        }
      }
    }
  }
}

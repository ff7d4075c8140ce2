/**
 The cursor-based reader of packet.h. A PACKET is a window into read-only memory; the readers
 advance it, and the length-prefixed readers cut a sub-window out of it without copying.
 */
module PacketReader {
  import opened Options
  import opened Words

  // ------------------------------------- vectors with a k-byte length prefix

  function EncodeVec(k: nat, v: seq<byte>): (s: seq<byte>)
    requires |v| < Pow256(k)
    ensures |s| == k + |v|
  {
    BigEndian(k, |v|) + v
  }

  /** The vector at the front of s and what follows it. */
  function ReadVec(k: nat, s: seq<byte>): (r: Option<(seq<byte>, seq<byte>)>)
  {
    if |s| < k then None
    else
      var n := FromBigEndian(s[..k]);
      if |s| - k < n then None else Some((s[k..k + n], s[k + n..]))
  }

  lemma ReadInvertsEncode(k: nat, v: seq<byte>, rest: seq<byte>)
    requires |v| < Pow256(k)
    ensures ReadVec(k, EncodeVec(k, v) + rest) == Some((v, rest))
  {
    var s := EncodeVec(k, v) + rest;
    BigEndianBijection(k, |v|, BigEndian(k, |v|));
    assert s[..k] == BigEndian(k, |v|);
    assert s[k..k + |v|] == v && s[k + |v|..] == rest;
  }

  /** A successful read conserves every byte: prefix, vector, rest. */
  lemma EncodeInvertsRead(k: nat, s: seq<byte>)
    requires ReadVec(k, s).Some?
    ensures var (v, rest) := ReadVec(k, s).value;
            |v| < Pow256(k) && EncodeVec(k, v) + rest == s
  {
    BigEndianBijection(k, 0, s[..k]);
    ThreeParts(s, k, k + FromBigEndian(s[..k]));
  }

  lemma ThreeParts(s: seq<byte>, i: nat, j: nat)
    requires i <= j <= |s|
    ensures s[..i] + s[i..j] + s[j..] == s
  {
  }

  function EncodeAll(k: nat, vs: seq<seq<byte>>): (s: seq<byte>)
    requires forall i :: 0 <= i < |vs| ==> |vs[i]| < Pow256(k)
  {
    if vs == [] then [] else EncodeVec(k, vs[0]) + EncodeAll(k, vs[1..])
  }

  /** Reading vector after vector until the input is used up. */
  function ReadAll(k: nat, s: seq<byte>): (r: Option<seq<seq<byte>>>)
    requires k >= 1
    decreases |s|
  {
    if s == [] then Some([])
    else match ReadVec(k, s)
      case None => None
      case Some((v, rest)) =>
        match ReadAll(k, rest)
        case None => None
        case Some(vs) => Some([v] + vs)
  }

  lemma {:induction false} ReadAllInvertsEncodeAll(k: nat, vs: seq<seq<byte>>)
    requires k >= 1 && forall i :: 0 <= i < |vs| ==> |vs[i]| < Pow256(k)
    ensures ReadAll(k, EncodeAll(k, vs)) == Some(vs)
  {
    if vs != [] {
      var tail := EncodeAll(k, vs[1..]);
      ReadInvertsEncode(k, vs[0], tail);
      ReadAllInvertsEncodeAll(k, vs[1..]);
      assert EncodeAll(k, vs) == EncodeVec(k, vs[0]) + tail != [];
      assert [vs[0]] + vs[1..] == vs;
    }
  }

  lemma {:induction false} EncodeAllInvertsReadAll(k: nat, s: seq<byte>)
    requires k >= 1 && ReadAll(k, s).Some?
    ensures var vs := ReadAll(k, s).value;
            && (forall i :: 0 <= i < |vs| ==> |vs[i]| < Pow256(k))
            && EncodeAll(k, vs) == s
    decreases |s|
  {
    if s != [] {
      var (v, rest) := ReadVec(k, s).value;
      EncodeInvertsRead(k, s);
      EncodeAllInvertsReadAll(k, rest);
      var vs := ReadAll(k, s).value;
      assert vs[1..] == ReadAll(k, rest).value;
    }
  }

  // ----------------------------------------------------- big-endian numbers

  /** `(x << 8) | y` on a 32-bit word. */
  function Append8(x: nat, y: byte): (r: nat)
    requires x < 0x100_0000
    ensures r == 256 * x + y
  {
    Pow2Values();
    OrShifted(x, 8, y)
  }

  lemma BytesToNumber(s: seq<byte>)
    ensures |s| == 1 ==> FromBigEndian(s) == s[0]
    ensures |s| == 2 ==> FromBigEndian(s) == 256 * (s[0] as int) + s[1]
    ensures |s| == 3 ==> FromBigEndian(s) == 256 * (256 * (s[0] as int) + s[1]) + s[2]
  {
    if |s| == 1 {
      assert s[..0] == [];
    } else if |s| == 2 {
      BytesToNumber(s[..1]);
    } else if |s| == 3 {
      BytesToNumber(s[..2]);
    }
  }

  // ------------------------------------------------------------- the cursor

  /** ReadVec on a window of the memory, in terms of the memory. */
  lemma ReadVecAt(buf: seq<byte>, curr: nat, remaining: nat, k: nat)
    requires curr + remaining <= |buf| && k <= remaining
    ensures
      var s := buf[curr..curr + remaining];
      var n := FromBigEndian(s[..k]);
      ReadVec(k, s) == if n <= remaining - k
                       then Some((buf[curr + k..curr + k + n], buf[curr + k + n..curr + remaining]))
                       else None
  {
    var s := buf[curr..curr + remaining];
    var n := FromBigEndian(s[..k]);
    if n <= remaining - k {
      var x, y := buf[curr + k..curr + k + n], s[k..k + n];
      assert forall i :: 0 <= i < n ==> x[i] == y[i];
      assert x == y;
      var z, t := buf[curr + k + n..curr + remaining], s[k + n..];
      assert z == t;
    }
  }

  class PACKET {
    var buf: seq<byte>   // the memory that curr points into
    var curr: nat
    var remaining: nat

    predicate Valid()
      reads this
    {
      curr + remaining <= |buf|
    }

    function View(): (s: seq<byte>)
      requires Valid()
      reads this
      ensures |s| == remaining
    {
      buf[curr..curr + remaining]
    }

    constructor CopyOf(p: PACKET)
      ensures buf == p.buf && curr == p.curr && remaining == p.remaining
    {
      buf, curr, remaining := p.buf, p.curr, p.remaining;
    }

    method Forward(len: nat)
      requires Valid() && len <= remaining
      modifies this`curr, this`remaining
      ensures Valid() && View() == old(View())[len..]
      ensures curr == old(curr) + len && remaining == old(remaining) - len
    {
      curr := curr + len;
      remaining := remaining - len;
    }

    /** PACKET_get_1, PACKET_get_net_2 and PACKET_get_net_3. */
    method GetNet(k: nat) returns (ok: bool, data: nat)
      requires Valid() && 1 <= k <= 3
      modifies this`curr, this`remaining
      ensures Valid() && ok == (old(remaining) >= k)
      ensures ok ==> data == FromBigEndian(old(View())[..k])
      ensures ok && k == 1 ==> data == old(View())[0]
      ensures ok && k == 2 ==> data == 256 * (old(View())[0] as int) + old(View())[1]
      ensures ok && k == 3 ==>
                data == 0x1_0000 * (old(View())[0] as int) + 256 * (old(View())[1] as int) + old(View())[2]
      ensures ok ==> curr == old(curr) + k && remaining == old(remaining) - k
      ensures !ok ==> unchanged(this)
    {
      if remaining < k {
        return false, 0;
      }
      ghost var s := View()[..k];
      BytesToNumber(s);
      assert s[0] == buf[curr] && (k >= 2 ==> s[1] == buf[curr + 1]) && (k == 3 ==> s[2] == buf[curr + 2]);
      data := buf[curr];
      if k >= 2 {
        data := Append8(data, buf[curr + 1]);
      }
      if k == 3 {
        data := Append8(data, buf[curr + 2]);
      }
      Forward(k);
      return true, data;
    }

    /** The returned start is the C pointer stored in `*data`. */
    method GetBytes(len: nat) returns (ok: bool, start: nat)
      requires Valid()
      modifies this`curr, this`remaining
      ensures Valid() && ok == (old(remaining) >= len)
      ensures ok ==> start == old(curr) && curr == old(curr) + len && remaining == old(remaining) - len
      ensures !ok ==> unchanged(this)
    {
      if remaining < len {
        return false, 0;
      }
      start := curr;
      Forward(len);
      return true, start;
    }

    /** The two getters that every length-prefixed reader applies to its copy of the packet. */
    method TakeVector(k: nat) returns (ok: bool, start: nat, length: nat)
      requires Valid() && 1 <= k <= 3
      modifies this`curr, this`remaining
      ensures Valid() && ok == ReadVec(k, old(View())).Some?
      ensures ok ==> start == old(curr) + k && curr == start + length <= |buf|
      ensures ok ==> ReadVec(k, old(View())).value == (buf[start..start + length], View())
    {
      length, start := 0, 0;
      ghost var curr0, remaining0 := curr, remaining;
      ok, length := GetNet(k);
      if !ok {
        return;
      }
      ReadVecAt(buf, curr0, remaining0, k);
      ok, start := GetBytes(length);
    }

    /** The same, and nothing may be left over. */
    method TakeWholeVector(k: nat) returns (ok: bool, start: nat, length: nat)
      requires Valid() && 1 <= k <= 3
      modifies this`curr, this`remaining
      ensures Valid() && ok == IsWholeVector(k, old(View()))
      ensures ok ==> remaining == 0 && curr == start + length <= |buf|
      ensures ok ==> start == old(curr) + k && curr == old(curr) + old(remaining)
      ensures ok ==> buf[start..start + length] == old(View())[k..]
    {
      WholeVectorIsTail(k, View());
      ok, start, length := TakeVector(k);
      ok := ok && remaining == 0;
    }
  }

  /**
   PACKET_get_length_prefixed_1, _2 and _3, by the width k of the prefix. pkt may be subpkt.
   */
  method GetLengthPrefixed(k: nat, pkt: PACKET, subpkt: PACKET) returns (ok: bool)
    requires pkt.Valid() && 1 <= k <= 3
    modifies pkt, subpkt
    ensures ok == ReadVec(k, old(pkt.View())).Some?
    ensures ok ==> pkt.Valid() && subpkt.Valid()
    ensures ok ==> subpkt.View() == ReadVec(k, old(pkt.View())).value.0
    ensures ok && pkt != subpkt ==> pkt.View() == ReadVec(k, old(pkt.View())).value.1
    ensures ok ==> subpkt.buf == old(pkt.buf) && subpkt.curr == old(pkt.curr) + k
    ensures ok && pkt != subpkt ==> pkt.buf == old(pkt.buf) && pkt.curr == subpkt.curr + subpkt.remaining
    ensures !ok ==> unchanged(pkt) && unchanged(subpkt)
  {
    var tmp := new PACKET.CopyOf(pkt);
    var data, length;
    ok, data, length := tmp.TakeVector(k);
    if !ok {
      return false;
    }
    pkt.buf, pkt.curr, pkt.remaining := tmp.buf, tmp.curr, tmp.remaining;
    subpkt.buf, subpkt.curr, subpkt.remaining := tmp.buf, data, length;
    return true;
  }

  /** PACKET_as_length_prefixed_1 and _2: the vector must use up the packet. */
  method AsLengthPrefixed(k: nat, pkt: PACKET, subpkt: PACKET) returns (ok: bool)
    requires pkt.Valid() && 1 <= k <= 2
    modifies pkt, subpkt
    ensures ok == IsWholeVector(k, old(pkt.View()))
    ensures ok ==> subpkt.Valid() && subpkt.View() == old(pkt.View())[k..]
    ensures ok ==> subpkt.buf == old(pkt.buf) && subpkt.curr == old(pkt.curr) + k
    ensures ok && pkt != subpkt ==> pkt.Valid() && pkt.buf == old(pkt.buf) && pkt.remaining == 0
    ensures ok && pkt != subpkt ==> pkt.curr == old(pkt.curr) + old(pkt.remaining)
    ensures !ok ==> unchanged(pkt) && unchanged(subpkt)
  {
    var tmp := new PACKET.CopyOf(pkt);
    var data, length;
    ok, data, length := tmp.TakeWholeVector(k);
    if !ok {
      return false;
    }
    pkt.buf, pkt.curr, pkt.remaining := tmp.buf, tmp.curr, tmp.remaining;
    subpkt.buf, subpkt.curr, subpkt.remaining := tmp.buf, data, length;
    return true;
  }

  predicate IsWholeVector(k: nat, s: seq<byte>) {
    var r := ReadVec(k, s);
    r.Some? && r.value.1 == []
  }

  lemma WholeVectorIsTail(k: nat, s: seq<byte>)
    ensures IsWholeVector(k, s) ==> k <= |s| && ReadVec(k, s).value.0 == s[k..]
  {
  }

  /** IsWholeVector holds of exactly the encodings of one vector. */
  lemma WholeVectors(k: nat, s: seq<byte>, v: seq<byte>)
    requires |v| < Pow256(k)
    ensures EncodeVec(k, v) == s ==> IsWholeVector(k, s) && s[k..] == v
    ensures IsWholeVector(k, s) ==> |s[k..]| < Pow256(k) && EncodeVec(k, s[k..]) == s
  {
    if EncodeVec(k, v) == s {
      ReadInvertsEncode(k, v, []);
      assert EncodeVec(k, v) + [] == s;
    }
    if IsWholeVector(k, s) {
      EncodeInvertsRead(k, s);
      assert ReadVec(k, s).value.0 == s[k..];
      assert EncodeVec(k, s[k..]) + [] == EncodeVec(k, s[k..]);
    }
  }

  function PrependAll(vs: seq<seq<byte>>, r: Option<seq<seq<byte>>>): Option<seq<seq<byte>>> {
    if r.Some? then Some(vs + r.value) else None
  }

  lemma PrependOne(vs: seq<seq<byte>>, v: seq<byte>, r: Option<seq<seq<byte>>>)
    ensures PrependAll(vs + [v], r) == PrependAll(vs, PrependAll([v], r))
    ensures PrependAll([], r) == r
  {
    if r.Some? {
      assert vs + [v] + r.value == vs + ([v] + r.value) && [] + r.value == r.value;
    }
  }

  /** The way callers take a list of vectors out of one packet: read until nothing remains. */
  method ReadVectors(k: nat, pkt: PACKET) returns (r: Option<seq<seq<byte>>>)
    requires pkt.Valid() && 1 <= k <= 3
    modifies pkt
    ensures r == ReadAll(k, old(pkt.View()))
    ensures r.Some? ==> pkt.Valid() && pkt.remaining == 0
  {
    ghost var s := pkt.View();
    var vs: seq<seq<byte>> := [];
    PrependOne([], [], ReadAll(k, s));
    while pkt.remaining != 0
      invariant pkt.Valid()
      invariant ReadAll(k, s) == PrependAll(vs, ReadAll(k, pkt.View()))
      decreases pkt.remaining
    {
      var subpkt := new PACKET.CopyOf(pkt);
      ghost var before := pkt.View();
      var ok := GetLengthPrefixed(k, pkt, subpkt);
      if !ok {
        return None;
      }
      PrependOne(vs, subpkt.View(), ReadAll(k, pkt.View()));
      assert ReadAll(k, before) == PrependAll([subpkt.View()], ReadAll(k, pkt.View()));
      vs := vs + [subpkt.View()];
    }
    assert vs + [] == vs;
    return Some(vs);
  }
}

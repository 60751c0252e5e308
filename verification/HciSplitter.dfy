/** The splitting of what is read from a virtual HCI into the packets for the controller. */
module HciSplitter {
  import opened Basics

  type Octet = n: int | 0 <= n < 256

  datatype Kind = Command | AclData | ScoData

  /** A packet, from behind its type byte on. */
  datatype Packet = Packet(kind: Kind, data: seq<Octet>)

  /** What a handler is called with: `size` bytes from `at` on. */
  datatype Delivery = Delivery(kind: Kind, at: nat, size: nat)

  function Code(kind: Kind): Octet {
    match kind
    case Command => 1
    case AclData => 2
    case ScoData => 3
  }

  function KindOf(code: Octet): (r: Option<Kind>) {
    if code == 1 then Some(Command) else if code == 2 then Some(AclData) else if code == 3 then Some(ScoData) else None
  }

  function HeaderSize(kind: Kind): nat { if kind.AclData? then 4 else 3 }

  /** The size that the header claims for header and data together. */
  function Claimed(kind: Kind, data: seq<Octet>): (r: nat)
    requires |data| >= HeaderSize(kind)
    ensures r >= HeaderSize(kind)
  {
    if kind.AclData? then data[3] as int * 256 + data[2] as int + 4 else data[2] as int + 3
  }

  ghost predicate WellFormed(p: Packet) {
    |p.data| >= HeaderSize(p.kind) && |p.data| == Claimed(p.kind, p.data)
  }

  /** A command or voice packet has its length in the third byte, and a data packet in the third and fourth, the
      less significant one first. */
  lemma WellFormedIff(p: Packet)
    ensures WellFormed(p)
       <==> if p.kind.AclData?
            then |p.data| >= 4 && (|p.data| - 4) % 256 == p.data[2] && (|p.data| - 4) / 256 == p.data[3]
            else |p.data| >= 3 && |p.data| - 3 == p.data[2]
  {
  }

  /** The type byte. */
  lemma TypeBytes(p: Packet)
    ensures Encode(p)[0] == if p.kind.Command? then 1 else if p.kind.AclData? then 2 else 3
    ensures Encode(p)[1..] == p.data
  {
  }

  function Encode(p: Packet): seq<Octet> { [Code(p.kind)] + p.data }

  function EncodeAll(ps: seq<Packet>): seq<Octet> {
    if ps == [] then [] else Encode(ps[0]) + EncodeAll(ps[1..])
  }

  /** What is delivered from `p` on. A byte that starts no packet is skipped, and a packet that is cut short
      is delivered as far as it goes, if its header is complete. */
  function SplitFrom(s: seq<Octet>, p: nat): seq<Delivery>
    requires p <= |s|
    decreases |s| - p
  {
    if p == |s| then [] else
    var kind := KindOf(s[p]);
    if kind.None? || |s| - p - 1 < HeaderSize(kind.value) then SplitFrom(s, p + 1) else
    var size := Size(s, p + 1, kind.value);
    [Delivery(kind.value, p + 1, size)] + SplitFrom(s, p + 1 + size)
  }

  function Size(s: seq<Octet>, at: nat, kind: Kind): (r: nat)
    requires at <= |s| && |s| - at >= HeaderSize(kind)
    ensures HeaderSize(kind) <= r <= |s| - at
  {
    var claimed := Claimed(kind, s[at..]);
    if claimed < |s| - at then claimed else |s| - at
  }

  /** What the header says, or all that is left if that is less. */
  lemma SizeIs(s: seq<Octet>, at: nat, kind: Kind)
    requires at <= |s| && |s| - at >= HeaderSize(kind)
    ensures var claimed := if kind.AclData? then 4 + s[at + 2] as int + 256 * s[at + 3] as int
                           else 3 + s[at + 2] as int;
            Size(s, at, kind) == if claimed < |s| - at then claimed else |s| - at
  {
  }

  ghost predicate InBounds(s: seq<Octet>, d: Delivery) {
    && 1 <= d.at && d.at + d.size <= |s|
    && s[d.at - 1] == Code(d.kind)
    && d.size >= HeaderSize(d.kind)
    && d.size == Size(s, d.at, d.kind)
  }

  ghost predicate InOrder(s: seq<Octet>, p: nat, ds: seq<Delivery>) {
    && (forall i :: 0 <= i < |ds| ==> InBounds(s, ds[i]) && ds[i].at > p)
    && (forall i, j :: 0 <= i < j < |ds| ==> ds[i].at + ds[i].size < ds[j].at)
  }

  lemma InOrderCons(s: seq<Octet>, p: nat, d: Delivery, ds: seq<Delivery>)
    requires InBounds(s, d) && d.at > p && InOrder(s, d.at + d.size, ds)
    ensures InOrder(s, p, [d] + ds)
  {
    var all := [d] + ds;
    assert forall i :: 1 <= i < |all| ==> all[i] == ds[i - 1];
  }

  /** On any input, what is delivered are slices within it, each behind its type byte, in order and without
      overlap. */
  lemma {:induction false} SlicesInOrder(s: seq<Octet>, p: nat)
    requires p <= |s|
    ensures InOrder(s, p, SplitFrom(s, p))
    decreases |s| - p
  {
    if p < |s| {
      var kind := KindOf(s[p]);
      if kind.None? || |s| - p - 1 < HeaderSize(kind.value) {
        SlicesInOrder(s, p + 1);
        assert InOrder(s, p + 1, SplitFrom(s, p + 1));
      } else {
        var size := Size(s, p + 1, kind.value);
        SlicesInOrder(s, p + 1 + size);
        InOrderCons(s, p, Delivery(kind.value, p + 1, size), SplitFrom(s, p + 1 + size));
      }
    }
  }

  function Contents(s: seq<Octet>, ds: seq<Delivery>): seq<Packet>
    requires Within(s, ds)
  {
    if ds == [] then [] else [Content(s, ds[0])] + Contents(s, ds[1..])
  }

  predicate Within(s: seq<Octet>, ds: seq<Delivery>) {
    forall i :: 0 <= i < |ds| ==> ds[i].at + ds[i].size <= |s|
  }

  function Content(s: seq<Octet>, d: Delivery): Packet
    requires d.at + d.size <= |s|
  {
    Packet(d.kind, s[d.at..d.at + d.size])
  }

  /** Well-formed packets, one after the other, come out as they went in. */
  lemma {:induction false} PacketsThereAndBack(pre: seq<Octet>, ps: seq<Packet>)
    requires forall i :: 0 <= i < |ps| ==> WellFormed(ps[i])
    ensures var s := pre + EncodeAll(ps);
            var ds := SplitFrom(s, |pre|);
            Within(s, ds) && Contents(s, ds) == ps
    decreases |ps|
  {
    if ps == [] {
      assert pre + EncodeAll(ps) == pre;
    } else {
      var p, rest := ps[0], EncodeAll(ps[1..]);
      Regroup(pre, Encode(p), rest);
      PacketsThereAndBack(pre + Encode(p), ps[1..]);
      PacketAndRest(pre, p, rest, ps[1..]);
      assert ps == [p] + ps[1..];
    }
  }

  lemma PacketAndRest(pre: seq<Octet>, p: Packet, rest: seq<Octet>, ps: seq<Packet>)
    requires WellFormed(p)
    requires var s := pre + Encode(p) + rest;
             var ds := SplitFrom(s, |pre + Encode(p)|);
             Within(s, ds) && Contents(s, ds) == ps
    ensures var s := pre + Encode(p) + rest;
            var ds := SplitFrom(s, |pre|);
            Within(s, ds) && Contents(s, ds) == [p] + ps
  {
    var s := pre + Encode(p) + rest;
    FirstPacket(pre, p, rest);
    var d, q := Delivery(p.kind, |pre| + 1, |p.data|), |pre + Encode(p)|;
    SplitFirst(s, |pre|, q, d);
    ContentsCons(s, d, SplitFrom(s, q));
  }

  lemma SplitFirst(s: seq<Octet>, p: nat, q: nat, d: Delivery)
    requires p < q <= |s| && d.at == p + 1 && q == d.at + d.size
    requires KindOf(s[p]) == Some(d.kind) && |s| - p - 1 >= HeaderSize(d.kind) && Size(s, p + 1, d.kind) == d.size
    ensures SplitFrom(s, p) == [d] + SplitFrom(s, q)
  {
  }

  lemma ContentsCons(s: seq<Octet>, d: Delivery, ds: seq<Delivery>)
    requires d.at + d.size <= |s| && Within(s, ds)
    ensures Within(s, [d] + ds) && Contents(s, [d] + ds) == [Content(s, d)] + Contents(s, ds)
  {
    assert ([d] + ds)[1..] == ds;
  }

  lemma FirstPacket(pre: seq<Octet>, p: Packet, rest: seq<Octet>)
    requires WellFormed(p)
    ensures var s := pre + Encode(p) + rest;
            && KindOf(s[|pre|]) == Some(p.kind) && |s| - |pre| - 1 >= HeaderSize(p.kind)
            && Size(s, |pre| + 1, p.kind) == |p.data|
            && Content(s, Delivery(p.kind, |pre| + 1, |p.data|)) == p
  {
    var s := pre + Encode(p) + rest;
    assert s[|pre| + 1..] == p.data + rest;
    assert s[|pre| + 1..|pre| + 1 + |p.data|] == p.data;
  }

  /** The splitter's buffer. */
  class Vhci {
    const hdr: array<Octet>
    var len: int

    constructor ()
      ensures fresh(hdr) && hdr.Length == 4096
    {
      hdr := new Octet[4096](i => 0);
      len := 0;
    }

    /** The size that the header claims, or what is left. */
    method PacketSize(ghost s: seq<Octet>, kind: Kind, pkt: nat) returns (pktlen: nat)
      requires 0 <= len && pkt + len == |s| <= hdr.Length && s == hdr[..|s|] && len >= HeaderSize(kind)
      ensures pktlen == Size(s, pkt, kind)
    {
      var claimed := if kind.AclData? then hdr[pkt + 3] as int * 256 + hdr[pkt + 2] as int + 4
            else hdr[pkt + 2] as int + 3;
      pktlen := if claimed < len then claimed else len;
    }

    /** The loop of vhci_read, on the `len` bytes that were read. */
    method Split() returns (ds: seq<Delivery>)
      requires 0 <= len <= hdr.Length
      modifies this`len
      ensures ds == SplitFrom(hdr[..old(len)], 0)
      ensures InOrder(hdr[..old(len)], 0, ds)
    {
      ghost var s := hdr[..len];
      ds := [];
      var pkt := 0;
      while len != 0
        invariant 0 <= len && 0 <= pkt && pkt + len == |s|
        invariant ds + SplitFrom(s, pkt) == SplitFrom(s, 0)
        decreases len
      {
        len := len - 1;
        var kind := KindOf(hdr[pkt]);
        pkt := pkt + 1;
        if kind.Some? && len >= HeaderSize(kind.value) {
          var pktlen := PacketSize(s, kind.value, pkt);
          ds := ds + [Delivery(kind.value, pkt, pktlen)];
          len := len - pktlen;
          pkt := pkt + pktlen;
        }
      }
      len := len - 1;
      SlicesInOrder(s, 0);
    }
  }
}

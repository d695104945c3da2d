/** A chat participant: the mutable Peer object and the value it holds. */
module Peers {
  import opened JavaText

  /** The three fields of a Peer as one value; rosters are sequences of these. */
  datatype PeerInfo = PeerInfo(name: string, host: string, port: int)

  /** The polynomial hash u[0]*31^(n-1) + ... + u[n-1] of code units, in 32-bit arithmetic. */
  function UnitsHash(u: seq<int>): (h: int)
    ensures IsInt32(h)
  {
    if |u| == 0 then 0 else Wrap32(31 * UnitsHash(u[..|u| - 1]) + u[|u| - 1])
  }

  /** String.hashCode, taken over the string's UTF-16 code units. */
  function StringHash(s: string): (h: int)
    ensures IsInt32(h)
  {
    UnitsHash(Utf16(s))
  }

  /** A character above U+FFFF counts as its two surrogates: U+1F600 hashes to 0xD83D * 31 + 0xDE00. */
  lemma AstralCharHash()
    ensures StringHash("\U{1F600}") == 1772899
  {
    var u := [0xD83D, 0xDE00];
    assert Utf16("\U{1F600}") == u;
    assert u[..1] == [0xD83D] && [0xD83D][..0] == [];
    assert UnitsHash([0xD83D]) == 0xD83D;
  }

  /** Objects.hash(name, host, port): the list hash 31*(31*(31 + h(name)) + h(host)) + port, wrapped. */
  function PeerHash(p: PeerInfo): (h: int)
    ensures IsInt32(h)
  {
    Wrap32(31 * Wrap32(31 * Wrap32(31 + StringHash(p.name)) + StringHash(p.host)) + p.port)
  }

  class Peer {
    var name: string
    var host: string
    var port: int

    /** A fresh peer has an empty name and host and port 0. */
    constructor()
      ensures name == "" && host == "" && port == 0
    {
      name := "";
      host := "";
      port := 0;
    }

    function Info(): PeerInfo
      reads this
    {
      PeerInfo(name, host, port)
    }

    method SetPeer(n: string, h: string, p: int)
      modifies this
      ensures name == n && host == h && port == p
    {
      name := n;
      host := h;
      port := p;
    }

    method SetName(n: string)
      modifies this
      ensures name == n && host == old(host) && port == old(port)
    {
      name := n;
    }

    method SetHost(h: string)
      modifies this
      ensures host == h && name == old(name) && port == old(port)
    {
      host := h;
    }

    method SetPort(p: int)
      modifies this
      ensures port == p && name == old(name) && host == old(host)
    {
      port := p;
    }

    function GetName(): string
      reads this
    {
      name
    }

    function GetHost(): string
      reads this
    {
      host
    }

    function GetPort(): int
      reads this
    {
      port
    }

    /** equals: the same object, or another Peer with the same three fields; never equal to null. */
    function Equals(other: Peer?): (r: bool)
      reads this, other
      ensures r <==> other != null && Info() == other.Info()
    {
      this == other || (other != null && name == other.name && host == other.host && port == other.port)
    }

    function HashCode(): (h: int)
      reads this
      ensures IsInt32(h)
    {
      PeerHash(Info())
    }
  }

  /** After setPeer the getters return what was set. */
  method SetPeerThenGet(n: string, h: string, p: int) returns (q: Peer)
    ensures q.GetName() == n && q.GetHost() == h && q.GetPort() == p
  {
    q := new Peer();
    q.SetPeer(n, h, p);
  }

  lemma EqualsReflexive(a: Peer)
    ensures a.Equals(a)
  {
  }

  /** Equal peers hash alike, as the hash reads only the compared fields. */
  lemma EqualPeersHashAlike(a: Peer, b: Peer)
    requires a.Equals(b)
    ensures a.HashCode() == b.HashCode()
  {
  }
}

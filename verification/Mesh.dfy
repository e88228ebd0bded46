/** The generator of routing tables for a two-dimensional mesh of routers: every packet reaches its
    destination on a shortest path, and packets never wait for each other in a circle. */
module Mesh {
  import opened Bits

  datatype Port = North | East | South | West | Local

  datatype Node = Node(x: int, y: int)

  type Lookup = map<int, seq<Port>>

  /** The number of a node, which is also its position in a routing table. */
  function Id(n: Node, ydim: int): int { n.x * ydim + n.y }

  predicate InMesh(n: Node, xdim: int, ydim: int) {
    0 <= n.x < xdim && 0 <= n.y < ydim
  }

  lemma IdIsUnique(n: Node, m: Node, xdim: int, ydim: int)
    requires InMesh(n, xdim, ydim) && InMesh(m, xdim, ydim)
    ensures 0 <= Id(n, ydim) < xdim * ydim
    ensures Id(n, ydim) == Id(m, ydim) ==> n == m
  {
    IdInRange(n, xdim, ydim);
    if Id(n, ydim) == Id(m, ydim) {
      ModUnique(Id(n, ydim), ydim, n.x, n.y);
      ModUnique(Id(m, ydim), ydim, m.x, m.y);
    }
  }

  lemma IdInRange(n: Node, xdim: int, ydim: int)
    requires InMesh(n, xdim, ydim)
    ensures 0 <= Id(n, ydim) < xdim * ydim
  {
    assert (xdim - 1 - n.x) * ydim >= 0;
    assert n.x * ydim >= 0;
    assert (xdim - 1 - n.x) * ydim == xdim * ydim - ydim - n.x * ydim;
  }

  // The tables.

  /** The port on which a packet at `n` leaves for `d`. */
  function Route(n: Node, d: Node): Port {
    if d == n then Local
    else if d.x == n.x then (if d.y < n.y then West else East)
    else if d.x < n.x then North
    else South
  }

  /** Every node of the mesh has a table, and every table an entry for every destination. */
  ghost predicate Complete(lookup: Lookup, xdim: int, ydim: int) {
    forall n | InMesh(n, xdim, ydim) ::
      && Id(n, ydim) in lookup
      && TableOf(n, lookup[Id(n, ydim)], xdim, ydim)
  }

  ghost predicate TableOf(n: Node, l: seq<Port>, xdim: int, ydim: int) {
    && |l| == xdim * ydim
    && forall d | InMesh(d, xdim, ydim) ::
         0 <= Id(d, ydim) < |l| && l[Id(d, ydim)] == Route(n, d)
  }

  /** One line of a table: the destinations with the same `x`. */
  method AppendColumn(n: Node, xd: int, ydim: int, l0: seq<Port>) returns (l: seq<Port>)
    ensures l0 <= l && |l| == |l0| + Max(ydim, 0)
    ensures forall yd | 0 <= yd < ydim :: l[|l0| + yd] == Route(n, Node(xd, yd))
  {
    var xs, ys := n.x, n.y;
    l := l0;
    var yd := 0;
    while yd < ydim
      invariant 0 <= yd <= Max(ydim, 0) && l0 <= l && |l| == |l0| + yd
      invariant forall k | 0 <= k < yd :: l[|l0| + k] == Route(n, Node(xd, k))
    {
      if xd == xs && yd == ys {
        l := l + [Local];
      } else if xd == xs {
        if yd < ys {
          l := l + [West];
        } else {
          l := l + [East];
        }
      } else {
        if xd < xs {
          l := l + [North];
        } else {
          l := l + [South];
        }
      }
      yd := yd + 1;
    }
  }

  /** The table of one node. */
  method MakeTable(n: Node, xdim: int, ydim: int) returns (l: seq<Port>)
    requires 0 < xdim && 0 < ydim
    ensures TableOf(n, l, xdim, ydim)
  {
    l := [];
    var xd := 0;
    while xd < xdim
      invariant 0 <= xd <= xdim && |l| == xd * ydim
      invariant TableOf(n, l, xd, ydim)
    {
      ghost var before := l;
      l := AppendColumn(n, xd, ydim, l);
      NextColumn(n, before, l, xd, ydim);
      xd := xd + 1;
    }
  }

  lemma NextColumn(n: Node, a: seq<Port>, b: seq<Port>, xd: nat, ydim: int)
    requires TableOf(n, a, xd, ydim) && 0 < ydim && a <= b && |b| == |a| + ydim
    requires forall yd | 0 <= yd < ydim :: b[|a| + yd] == Route(n, Node(xd, yd))
    ensures TableOf(n, b, xd + 1, ydim)
  {
    assert |b| == (xd + 1) * ydim;
    forall d | InMesh(d, xd + 1, ydim)
      ensures 0 <= Id(d, ydim) < |b| && b[Id(d, ydim)] == Route(n, d)
    {
      IdInRange(d, xd + 1, ydim);
      if d.x < xd {
        assert InMesh(d, xd, ydim);
        assert b[Id(d, ydim)] == a[Id(d, ydim)];
      } else {
        assert Id(d, ydim) == |a| + d.y;
      }
    }
  }

  /** The tables of all nodes. */
  method Generate(xdim: int, ydim: int) returns (lookup: Lookup)
    ensures Complete(lookup, xdim, ydim)
    ensures forall id :: id in lookup ==> exists n :: InMesh(n, xdim, ydim) && Id(n, ydim) == id
  {
    lookup := map[];
    var xs := 0;
    while xs < xdim
      invariant 0 <= xs <= Max(xdim, 0)
      invariant forall id :: id in lookup ==> exists n :: InMesh(n, xdim, ydim) && Id(n, ydim) == id
      invariant Filled(lookup, xs, 0, xdim, ydim)
    {
      var ys := 0;
      while ys < ydim
        invariant 0 <= ys <= Max(ydim, 0)
        invariant forall id :: id in lookup ==> exists n :: InMesh(n, xdim, ydim) && Id(n, ydim) == id
        invariant Filled(lookup, xs, ys, xdim, ydim)
      {
        assert InMesh(Node(xs, ys), xdim, ydim);
        var l := MakeTable(Node(xs, ys), xdim, ydim);
        NextTable(lookup, xs, ys, xdim, ydim, l);
        lookup := lookup[xs * ydim + ys := l];
        ys := ys + 1;
      }
      xs := xs + 1;
    }
  }

  /** The tables are there for the nodes before `(xs, ys)`, column by column. */
  ghost predicate Filled(lookup: Lookup, xs: int, ys: int, xdim: int, ydim: int) {
    forall n | InMesh(n, xdim, ydim) && (n.x < xs || (n.x == xs && n.y < ys)) ::
      Id(n, ydim) in lookup && TableOf(n, lookup[Id(n, ydim)], xdim, ydim)
  }

  lemma NextTable(lookup: Lookup, xs: int, ys: int, xdim: int, ydim: int, l: seq<Port>)
    requires Filled(lookup, xs, ys, xdim, ydim) && InMesh(Node(xs, ys), xdim, ydim)
    requires TableOf(Node(xs, ys), l, xdim, ydim)
    ensures Filled(lookup[xs * ydim + ys := l], xs, ys + 1, xdim, ydim)
  {
    hide TableOf;
    var next := lookup[xs * ydim + ys := l];
    forall n | InMesh(n, xdim, ydim) && (n.x < xs || (n.x == xs && n.y < ys + 1))
      ensures Id(n, ydim) in next && TableOf(n, next[Id(n, ydim)], xdim, ydim)
    {
      IdIsUnique(n, Node(xs, ys), xdim, ydim);
    }
  }

  // Following the tables.

  /** How the routers are wired. */
  function Neighbour(n: Node, p: Port): Node {
    match p
    case North => Node(n.x - 1, n.y)
    case South => Node(n.x + 1, n.y)
    case West => Node(n.x, n.y - 1)
    case East => Node(n.x, n.y + 1)
    case Local => n
  }

  /** What the router `n` looks up for the destination number `dest`. */
  function Select(lookup: Lookup, ydim: int, n: Node, dest: int): Port {
    if Id(n, ydim) in lookup && 0 <= dest < |lookup[Id(n, ydim)]| then
      lookup[Id(n, ydim)][dest]
    else Local
  }

  lemma SelectIsRoute(lookup: Lookup, xdim: int, ydim: int, n: Node, d: Node)
    requires Complete(lookup, xdim, ydim) && InMesh(n, xdim, ydim) && InMesh(d, xdim, ydim)
    ensures Select(lookup, ydim, n, Id(d, ydim)) == Route(n, d)
  {
    assert TableOf(n, lookup[Id(n, ydim)], xdim, ydim);
  }

  function Travel(lookup: Lookup, ydim: int, n: Node, dest: int, hops: nat): Node
    decreases hops
  {
    if hops == 0 then n
    else Travel(lookup, ydim, Neighbour(n, Select(lookup, ydim, n, dest)), dest, hops - 1)
  }

  function Abs(i: int): nat { if i < 0 then -i else i }

  function Distance(n: Node, d: Node): nat { Abs(n.x - d.x) + Abs(n.y - d.y) }

  /** A packet is forwarded exactly as often as the two nodes are apart, never out of the mesh, and
      then delivered at its destination. On its way it keeps its `y` until it has reached the right
      `x`. */
  lemma {:induction false} Delivery(lookup: Lookup, xdim: int, ydim: int, n: Node, d: Node, k: nat)
    requires Complete(lookup, xdim, ydim) && InMesh(n, xdim, ydim) && InMesh(d, xdim, ydim)
    requires k <= Distance(n, d)
    ensures var at := Travel(lookup, ydim, n, Id(d, ydim), k);
            && InMesh(at, xdim, ydim) && Distance(at, d) == Distance(n, d) - k
            && (Select(lookup, ydim, at, Id(d, ydim)) == Local <==> k == Distance(n, d))
            && (k == Distance(n, d) ==> at == d)
            && (if k <= Abs(n.x - d.x) then at.y == n.y else at.x == d.x)
    decreases k
  {
    hide Select, Complete, Id;
    SelectIsRoute(lookup, xdim, ydim, n, d);
    if k > 0 {
      var m := Neighbour(n, Route(n, d));
      assert Distance(m, d) == Distance(n, d) - 1;
      Delivery(lookup, xdim, ydim, m, d, k - 1);
    }
  }

  // Deadlock.

  /** A wire between two routers: the port it leaves from. */
  datatype Channel = Channel(from: Node, port: Port)

  /** Packets on their way: the channels in use, each by a packet for some destination, which the
      tables have sent over this channel. */
  ghost predicate Traffic(occupied: map<Channel, Node>, lookup: Lookup, xdim: int, ydim: int) {
    forall c | c in occupied ::
      && InMesh(c.from, xdim, ydim) && InMesh(occupied[c], xdim, ydim)
      && c.port != Local && Select(lookup, ydim, c.from, Id(occupied[c], ydim)) == c.port
  }

  /** The channel a packet asks for at the end of channel `c`; its port is `Local` when the packet
      has arrived. */
  function Wanted(c: Channel, d: Node, lookup: Lookup, ydim: int): Channel {
    var n := Neighbour(c.from, c.port);
    Channel(n, Select(lookup, ydim, n, Id(d, ydim)))
  }

  /** North and South before West and East, and among these the way ahead. */
  function Rank(c: Channel, xdim: int, ydim: int): int {
    match c.port
    case North => ydim + c.from.x
    case South => ydim + xdim - 1 - c.from.x
    case West => c.from.y
    case East => ydim - 1 - c.from.y
    case Local => -1
  }

  lemma WantedIsLower(c: Channel, d: Node, lookup: Lookup, xdim: int, ydim: int)
    requires Complete(lookup, xdim, ydim) && InMesh(c.from, xdim, ydim) && InMesh(d, xdim, ydim)
    requires c.port != Local && Select(lookup, ydim, c.from, Id(d, ydim)) == c.port
    ensures Rank(Wanted(c, d, lookup, ydim), xdim, ydim) < Rank(c, xdim, ydim)
    ensures InMesh(Neighbour(c.from, c.port), xdim, ydim)
  {
    hide Select, Complete, Id;
    SelectIsRoute(lookup, xdim, ydim, c.from, d);
    SelectIsRoute(lookup, xdim, ydim, Neighbour(c.from, c.port), d);
  }

  lemma {:induction false} LowestChannel(cs: set<Channel>, xdim: int, ydim: int) returns (c: Channel)
    requires cs != {}
    ensures c in cs && forall b | b in cs :: Rank(c, xdim, ydim) <= Rank(b, xdim, ydim)
    decreases |cs|
  {
    hide Rank;
    c :| c in cs;
    var rest := cs - {c};
    if rest != {} {
      var b := LowestChannel(rest, xdim, ydim);
      if Rank(b, xdim, ydim) < Rank(c, xdim, ydim) {
        c := b;
      }
    }
  }

  /** However many channels are in use, at least one packet can go on: the channel it asks for is
      free, or it has arrived. */
  lemma NoDeadlock(occupied: map<Channel, Node>, lookup: Lookup, xdim: int, ydim: int)
    requires Complete(lookup, xdim, ydim) && Traffic(occupied, lookup, xdim, ydim)
    requires occupied != map[]
    ensures exists c | c in occupied ::
              var w := Wanted(c, occupied[c], lookup, ydim);
              w.port == Local || w !in occupied
  {
    hide Rank, Select, Wanted, Complete, InMesh;
    assert occupied.Keys != {};
    var c := LowestChannel(occupied.Keys, xdim, ydim);
    WantedIsLower(c, occupied[c], lookup, xdim, ydim);
    var w := Wanted(c, occupied[c], lookup, ydim);
    assert w !in occupied.Keys;
  }

  /** Channel dependencies have no cycle: along any chain of packets, each asking for the channel
      of the next one, no channel comes back. */
  lemma {:induction false} NoCycle(chain: seq<Channel>, occupied: map<Channel, Node>, lookup: Lookup,
                                   xdim: int, ydim: int)
    requires Complete(lookup, xdim, ydim) && Traffic(occupied, lookup, xdim, ydim)
    requires 2 <= |chain| && forall c | c in chain :: c in occupied
    requires forall i | 0 <= i < |chain| - 1 ::
               chain[i + 1] == Wanted(chain[i], occupied[chain[i]], lookup, ydim)
    ensures Rank(chain[|chain| - 1], xdim, ydim) < Rank(chain[0], xdim, ydim)
    ensures chain[0] != chain[|chain| - 1]
  {
    hide Rank, Select, Wanted, Complete, InMesh, Route;
    var k := |chain| - 1;
    assert chain[k - 1] in occupied && chain[k] == Wanted(chain[k - 1], occupied[chain[k - 1]], lookup, ydim);
    WantedIsLower(chain[k - 1], occupied[chain[k - 1]], lookup, xdim, ydim);
    if |chain| > 2 {
      NoCycle(chain[..k], occupied, lookup, xdim, ydim);
    }
  }
}

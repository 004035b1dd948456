/** The copy of a real view in flash: packets of 28 items in consecutive nodes.

    After an update only the packets from the first changed place on are written.  The node store itself is
    taken at its word: a written node holds what was written, a deleted one is gone. */
module FlashPackets {
  import opened ViewItems
  import opened ViewModel

  /** `VIEW_BUNDLE_SIZE`. */
  const BUNDLE: nat := 28

  datatype Packet = Packet(table: nat, index: nat, items: seq<Item>)

  /** The nodes of a block, and the part of them that holds the view: total packets from node start on. */
  datatype Image = Image(start: nat, table: nat, nodes: map<nat, Packet>, total: nat)

  /** Packets needed for n items. */
  function PacketCount(n: nat): (p: nat)
    ensures n <= p * BUNDLE < n + BUNDLE
  {
    if n % BUNDLE == 0 then n / BUNDLE else n / BUNDLE + 1
  }

  /** The first packet that a dump from place from on writes. */
  function FirstPacket(from: nat): (p: nat)
    ensures p * BUNDLE <= from
  {
    if PacketCount(from) == 0 then 0 else PacketCount(from) - 1
  }

  /** The items of packet i of a list, filled up with empty ones. */
  function PacketItems(list: seq<Item>, i: nat): (items: seq<Item>)
    ensures |items| == BUNDLE
  {
    seq(BUNDLE, j requires 0 <= j < BUNDLE => if i * BUNDLE + j < |list| then list[i * BUNDLE + j] else NULL_ITEM)
  }

  function PacketOf(table: nat, list: seq<Item>, i: nat): (p: Packet) {
    Packet(table, i, PacketItems(list, i))
  }

  /** The nodes after the first i rounds of the dump of a list. */
  function WritePackets(g: Image, list: seq<Item>, from: nat, i: nat): (nodes: map<nat, Packet>) {
    if i == 0 then g.nodes
    else
      var before := WritePackets(g, list, from, i - 1);
      if i - 1 >= FirstPacket(from) then before[g.start + i - 1 := PacketOf(g.table, list, i - 1)] else before
  }

  function DeleteNodes(nodes: map<nat, Packet>, lo: nat, hi: nat): (r: map<nat, Packet>)
    decreases hi
  {
    if hi <= lo then nodes else DeleteNodes(nodes, lo, hi - 1) - {hi - 1}
  }

  /** The flash after the dump of a list from place from on. */
  function After(g: Image, list: seq<Item>, from: nat): (r: Image) {
    var n := PacketCount(|list|);
    Image(g.start, g.table, DeleteNodes(WritePackets(g, list, from, n), g.start + n, g.start + g.total), n)
  }

  /** The flash holds the list. */
  ghost predicate Flashed(g: Image, list: seq<Item>) {
    && g.total == PacketCount(|list|)
    && forall i: nat :: i < g.total ==> Holds(g, list, i)
  }

  predicate Holds(g: Image, list: seq<Item>, i: nat) {
    g.start + i in g.nodes && g.nodes[g.start + i] == PacketOf(g.table, list, i)
  }

  // ---------------------------------------------------------------- node by node

  lemma {:induction false} WrittenAt(g: Image, list: seq<Item>, from: nat, i: nat, k: nat)
    ensures var w := WritePackets(g, list, from, i);
            if g.start <= k < g.start + i && k - g.start >= FirstPacket(from) then
              k in w && w[k] == PacketOf(g.table, list, k - g.start)
            else
              (k in w <==> k in g.nodes) && (k in w ==> w[k] == g.nodes[k])
  {
    if i > 0 {
      WrittenAt(g, list, from, i - 1, k);
    }
  }

  lemma {:induction false} DeletedAt(nodes: map<nat, Packet>, lo: nat, hi: nat, k: nat)
    ensures var r := DeleteNodes(nodes, lo, hi);
            && (k in r <==> k in nodes && !(lo <= k < hi))
            && (k in r ==> r[k] == nodes[k])
    decreases hi
  {
    if hi > lo {
      DeletedAt(nodes, lo, hi - 1, k);
    }
  }

  /** Packet i after a dump: written, or what was there before. */
  lemma AfterAt(g: Image, list: seq<Item>, from: nat, i: nat)
    requires i < PacketCount(|list|)
    ensures var r := After(g, list, from);
            if i >= FirstPacket(from) then
              Holds(r, list, i)
            else
              Holds(r, list, i) <==> Holds(g, list, i)
  {
    var n, k := PacketCount(|list|), g.start + i;
    WrittenAt(g, list, from, n, k);
    DeletedAt(WritePackets(g, list, from, n), g.start + n, g.start + g.total, k);
  }

  /** A dump touches no node outside the old and the new packets of its table. */
  lemma OtherNodesKept(g: Image, list: seq<Item>, from: nat, k: nat)
    requires k < g.start || (g.start + g.total <= k && g.start + PacketCount(|list|) <= k)
    ensures var r := After(g, list, from);
            (k in r.nodes <==> k in g.nodes) && (k in r.nodes ==> r.nodes[k] == g.nodes[k])
  {
    var n := PacketCount(|list|);
    WrittenAt(g, list, from, n, k);
    DeletedAt(WritePackets(g, list, from, n), g.start + n, g.start + g.total, k);
  }

  // ---------------------------------------------------------------- a whole dump, node by node

  /** The node at k is packet i of the list: header, and items up to the end of the list. */
  ghost predicate PacketAt(nodes: map<nat, Packet>, k: nat, table: nat, i: nat, list: seq<Item>) {
    && k in nodes && nodes[k].table == table && nodes[k].index == i && |nodes[k].items| == 28
    && forall j: nat :: j < 28 ==> nodes[k].items[j] == if 28 * i + j < |list| then list[28 * i + j] else 0xFFFF
  }

  ghost predicate SameNode(nodes: map<nat, Packet>, r: map<nat, Packet>, k: nat) {
    (k in r <==> k in nodes) && (k in r ==> r[k] == nodes[k])
  }

  lemma WrittenIff(from: nat, i: nat)
    ensures i >= FirstPacket(from) <==> from <= 28 * (i + 1)
  {
  }

  /** Every node after a dump from place from on.  A packet of the list is written exactly if it does not end
      before that place; the nodes from its end to the end of the old packets are gone; no other changes. */
  lemma DumpNode(g: Image, list: seq<Item>, from: nat, k: nat)
    ensures var r := After(g, list, from);
            && r.start == g.start && r.table == g.table && |list| <= 28 * r.total < |list| + 28
            && if g.start <= k < g.start + r.total && from <= 28 * (k - g.start + 1) then
                 PacketAt(r.nodes, k, g.table, k - g.start, list)
               else if g.start + r.total <= k < g.start + g.total then
                 k !in r.nodes
               else
                 SameNode(g.nodes, r.nodes, k)
  {
    var n := PacketCount(|list|);
    WrittenAt(g, list, from, n, k);
    DeletedAt(WritePackets(g, list, from, n), g.start + n, g.start + g.total, k);
    if g.start <= k {
      WrittenIff(from, k - g.start);
    }
  }

  /** The packets of a flash that holds a list carry their table and their number. */
  lemma FlashedPacket(g: Image, list: seq<Item>, i: nat)
    requires Flashed(g, list) && i < g.total
    ensures PacketAt(g.nodes, g.start + i, g.table, i, list)
  {
    assert Holds(g, list, i);
  }

  /** No packet of the table behind its last one. */
  ghost predicate Tidy(g: Image) {
    forall k: nat :: k in g.nodes && g.start + g.total <= k ==> g.nodes[k].table != g.table
  }

  lemma DumpTidies(g: Image, list: seq<Item>, from: nat)
    requires Tidy(g)
    ensures Tidy(After(g, list, from))
  {
    var r := After(g, list, from);
    forall k: nat | k in r.nodes && r.start + r.total <= k
      ensures r.nodes[k].table != r.table
    {
      DumpNode(g, list, from, k);
    }
  }

  // ---------------------------------------------------------------- what a dump persists

  /** The packets that a dump of r from place from on leaves alone say the same of b and of r. */
  ghost predicate SamePackets(b: seq<Item>, r: seq<Item>, from: nat) {
    forall i: nat :: i < FirstPacket(from) && i < PacketCount(|r|) ==> PacketItems(b, i) == PacketItems(r, i)
  }

  lemma SkippedPacket(b: seq<Item>, from: nat, i: nat)
    requires i < FirstPacket(from) && from <= |b|
    ensures i < PacketCount(|b|) && (i + 1) * BUNDLE <= from
  {
  }

  /** If the flash held b, it holds r after a dump from place from on exactly when the packets before that
      place did not need to change. */
  lemma DumpPersistsIff(g: Image, b: seq<Item>, r: seq<Item>, from: nat)
    requires Flashed(g, b) && from <= |b|
    ensures Flashed(After(g, r, from), r) <==> SamePackets(b, r, from)
  {
    var t := After(g, r, from);
    forall i: nat | i < PacketCount(|r|)
      ensures Holds(t, r, i) <==> (i < FirstPacket(from) ==> PacketItems(b, i) == PacketItems(r, i))
    {
      AfterAt(g, r, from, i);
      if i < FirstPacket(from) {
        SkippedPacket(b, from, i);
        assert Holds(g, b, i);
      }
    }
  }

  ghost predicate SameBelow(b: seq<Item>, r: seq<Item>, from: nat) {
    from <= |b| && from <= |r| && forall k: nat :: k < from ==> r[k] == b[k]
  }

  /** So a dump from place from on persists r if r is b below that place. */
  lemma SameBelowPersists(g: Image, b: seq<Item>, r: seq<Item>, from: nat)
    requires Flashed(g, b) && SameBelow(b, r, from)
    ensures Flashed(After(g, r, from), r)
  {
    forall i: nat | i < FirstPacket(from) && i < PacketCount(|r|)
      ensures PacketItems(b, i) == PacketItems(r, i)
    {
      SkippedPacket(b, from, i);
      forall j: nat | j < BUNDLE
        ensures PacketItems(b, i)[j] == PacketItems(r, i)[j]
      {
        assert i * BUNDLE + j < from;
      }
    }
    DumpPersistsIff(g, b, r, from);
  }

  lemma ItemInPacket(list: seq<Item>, k: nat)
    requires k < |list|
    ensures k / BUNDLE < PacketCount(|list|) && list[k] == PacketItems(list, k / BUNDLE)[k % BUNDLE]
  {
    assert k == k / BUNDLE * BUNDLE + k % BUNDLE;
  }

  lemma PaddedEnd(list: seq<Item>)
    requires |list| % BUNDLE != 0
    ensures |list| / BUNDLE < PacketCount(|list|)
    ensures PacketItems(list, |list| / BUNDLE)[|list| % BUNDLE] == NULL_ITEM
  {
    assert |list| == |list| / BUNDLE * BUNDLE + |list| % BUNDLE;
  }

  /** Where the shorter of two lists in the same packets ends, the longer has an empty item. */
  lemma NullAtEnd(g: Image, b: seq<Item>, c: seq<Item>)
    requires Flashed(g, b) && Flashed(g, c) && |b| < |c|
    ensures c[|b|] == NULL_ITEM
  {
    var i := |b| / BUNDLE;
    assert |b| == i * BUNDLE + |b| % BUNDLE;
    PaddedEnd(b);
    ItemInPacket(c, |b|);
    assert Holds(g, b, i) && Holds(g, c, i);
  }

  lemma NotShorter(g: Image, b: seq<Item>, c: seq<Item>)
    requires Flashed(g, b) && Flashed(g, c) && NoNulls(c)
    ensures |c| <= |b|
  {
    if |b| < |c| {
      NullAtEnd(g, b, c);
    }
  }

  /** The flash determines the list. */
  lemma FlashedUnique(g: Image, b: seq<Item>, c: seq<Item>)
    requires Flashed(g, b) && Flashed(g, c) && NoNulls(b) && NoNulls(c)
    ensures b == c
  {
    NotShorter(g, b, c);
    NotShorter(g, c, b);
    forall k: nat | k < |b|
      ensures b[k] == c[k]
    {
      ItemInPacket(b, k);
      ItemInPacket(c, k);
      assert Holds(g, b, k / BUNDLE) && Holds(g, c, k / BUNDLE);
    }
  }

  // ---------------------------------------------------------------- the calls

  class Flash {
    const start: nat
    const table: nat
    var nodes: map<nat, Packet>
    /** `packet_total`. */
    var total: nat

    ghost function State(): (g: Image)
      reads this
    {
      Image(start, table, nodes, total)
    }

    constructor (start: nat, table: nat, nodes: map<nat, Packet>, total: nat)
      ensures State() == Image(start, table, nodes, total)
    {
      this.start, this.table, this.nodes, this.total := start, table, nodes, total;
    }

    /** The packet that the dump builds: cleared, then the items copied, fewer in the last one. */
    method FillPacket(mem: array<Item>, count: nat, i: nat, packets: nat) returns (p: Packet)
      requires count <= mem.Length && packets == PacketCount(count) && i < packets
      ensures p == PacketOf(table, mem[..count], i)
    {
      var n := if i != packets - 1 then BUNDLE else if i == 0 then count else count - i * BUNDLE;
      var items := mem[i * BUNDLE..i * BUNDLE + n] + seq(BUNDLE - n, _ => NULL_ITEM);
      p := Packet(table, i, items);
    }

    /** The loop that writes the packets from the first changed one on. */
    method WriteFrom(mem: array<Item>, count: nat, from: nat, packets: nat, first: nat)
      requires count <= mem.Length && packets == PacketCount(count) && first == FirstPacket(from) + 1
      modifies this`nodes
      ensures nodes == WritePackets(old(State()), mem[..count], from, packets)
    {
      var i := 0;
      while i < packets
        invariant i <= packets && nodes == WritePackets(old(State()), mem[..count], from, i)
      {
        var p := FillPacket(mem, count, i, packets);
        if i >= first - 1 {
          nodes := nodes[start + i := p];
        }
        i := i + 1;
      }
    }

    /** The loop that deletes the nodes behind the last packet. */
    method DeleteFrom(lo: nat)
      requires start <= lo
      modifies this
      ensures nodes == DeleteNodes(old(nodes), lo, start + old(total))
      ensures total == if lo < start + old(total) then lo - start else old(total)
    {
      var hi, k := start + total, lo;
      while k < hi
        invariant lo <= k && (k <= hi || k == lo)
        invariant nodes == DeleteNodes(old(nodes), lo, k)
        invariant total == old(total) - (k - lo)
      {
        nodes := nodes - {k};
        total := total - 1;
        k := k + 1;
      }
    }

    /** `db_dump_total_item`. */
    method Dump(mem: array<Item>, count: nat, from: nat)
      requires count <= mem.Length
      modifies this
      ensures State() == After(old(State()), mem[..count], from)
    {
      var packets := if count % BUNDLE == 0 then count / BUNDLE else count / BUNDLE + 1;
      var first := if from % BUNDLE == 0 then from / BUNDLE else from / BUNDLE + 1;
      if first == 0 {
        first := 1;
      }
      if packets == 0 {
        DeleteFrom(start);
      } else {
        WriteFrom(mem, count, from, packets, first);
        DeleteFrom(start + packets);
        if packets > total {
          total := packets;
        }
      }
    }

    /** One packet of the loop that reads the list: its items up to the first empty one are copied. */
    method ReadPacket(mem: array<Item>, i: nat, ghost b: seq<Item>) returns (j: nat)
      requires Holds(State(), b, i) && NoNulls(b) && |b| <= mem.Length && i < PacketCount(|b|)
      requires forall k: nat :: k < i * BUNDLE ==> mem[k] == b[k]
      requires forall k: nat :: i * BUNDLE <= k < mem.Length ==> mem[k] == NULL_ITEM
      modifies mem
      ensures j == if |b| < (i + 1) * BUNDLE then |b| - i * BUNDLE else BUNDLE
      ensures forall k: nat :: k < i * BUNDLE + j ==> mem[k] == b[k]
      ensures forall k: nat :: i * BUNDLE + j <= k < mem.Length ==> mem[k] == NULL_ITEM
    {
      var items := nodes[start + i].items;
      j := 0;
      while j < BUNDLE && items[j] != NULL_ITEM
        invariant j <= BUNDLE && i * BUNDLE + j <= |b|
        invariant forall k: nat :: k < i * BUNDLE + j ==> mem[k] == b[k]
        invariant forall k: nat :: i * BUNDLE + j <= k < mem.Length ==> mem[k] == NULL_ITEM
      {
        mem[i * BUNDLE + j] := items[j];
        j := j + 1;
      }
    }

    /** The part of `db_create_virtual_view` that reads the list back from flash.  The list always comes back;
        but it is marked as synchronised, and its length noted, only where an empty item ends it, which is not
        the case when its length is a multiple of the packet size. */
    method Load(mem: array<Item>, ghost b: seq<Item>) returns (synced: bool, count: nat)
      requires Flashed(State(), b) && NoNulls(b) && |b| <= mem.Length
      modifies mem
      ensures mem[..|b|] == b && forall k: nat :: |b| <= k < mem.Length ==> mem[k] == NULL_ITEM
      ensures synced <==> |b| % BUNDLE != 0
      ensures synced ==> count == |b|
    {
      forall k | 0 <= k < mem.Length {
        mem[k] := NULL_ITEM;
      }
      synced, count := false, 0;
      var i := 0;
      while i < total && !synced
        invariant i <= total && total == PacketCount(|b|)
        invariant !synced ==> i * BUNDLE <= |b|
        invariant synced ==> count == |b| && |b| % BUNDLE != 0 && i == total
        invariant forall k: nat :: k < |b| && (synced || k < i * BUNDLE) ==> mem[k] == b[k]
        invariant forall k: nat :: (if synced then |b| else i * BUNDLE) <= k < mem.Length ==> mem[k] == NULL_ITEM
      {
        assert Holds(State(), b, i);
        var j := ReadPacket(mem, i, b);
        if j < BUNDLE {
          i := total;
          synced := true;
          count := (if i > 0 then i - 1 else 0) * BUNDLE + j;
        } else {
          i := i + 1;
        }
      }
    }
  }

  // ---------------------------------------------------------------- the next start

  /** The items of a packet before its first empty one. */
  function PacketIds(items: seq<Item>): (ids: seq<nat>) {
    if items == [] || items[0] == NULL_ITEM then [] else [ItemId(items[0])] + PacketIds(items[1..])
  }

  /** The loop of `db_create_view` that activates the elements of one packet. */
  method ActivatePacket(items: seq<Item>) returns (ids: seq<nat>)
    ensures ids == PacketIds(items)
  {
    ids := [];
    var j := 0;
    while j < |items| && items[j] != NULL_ITEM
      invariant j <= |items| && ids + PacketIds(items[j..]) == PacketIds(items)
    {
      assert items[j..][1..] == items[j + 1..];
      ids := ids + [ItemId(items[j])];
      j := j + 1;
    }
  }

  lemma {:induction false} PacketIdsAre(items: seq<Item>, front: seq<Item>)
    requires |front| <= |items| && NoNulls(front) && items[..|front|] == front
    requires |front| < |items| ==> items[|front|] == NULL_ITEM
    ensures PacketIds(items) == Ids(front)
    decreases |front|
  {
    if front != [] {
      PacketIdsAre(items[1..], front[1..]);
      assert items[0] == front[0];
      assert Ids(front) == [ItemId(front[0])] + Ids(front[1..]);
    }
  }

  /** The first i packets of a list. */
  function UpTo(list: seq<Item>, i: nat): (r: seq<Item>) {
    if i * BUNDLE <= |list| then list[..i * BUNDLE] else list
  }

  lemma IdsOfPacket(list: seq<Item>, i: nat)
    requires NoNulls(list) && i < PacketCount(|list|)
    ensures Ids(UpTo(list, i + 1)) == Ids(UpTo(list, i)) + PacketIds(PacketItems(list, i))
  {
    var front := UpTo(list, i + 1)[i * BUNDLE..];
    PacketIdsAre(PacketItems(list, i), front);
    assert UpTo(list, i + 1) == UpTo(list, i) + front;
  }

  lemma FlashedNodes(g: Image, list: seq<Item>)
    requires Flashed(g, list)
    ensures forall k: nat :: g.start <= k < g.start + g.total ==>
              k in g.nodes && g.nodes[k] == PacketOf(g.table, list, k - g.start)
  {
    forall k: nat | g.start <= k < g.start + g.total
      ensures k in g.nodes && g.nodes[k] == PacketOf(g.table, list, k - g.start)
    {
      assert Holds(g, list, k - g.start);
    }
  }

  /** The part of `db_create_view` that finds the packets at the next start: it counts the nodes of the table
      from its first node on, checks their numbers, and activates the elements they list.  For a flash that
      holds a list, with no packet left behind the last one, it finds that list. */
  method Recount(fl: Flash, limit: nat, ghost list: seq<Item>) returns (total: nat, ids: seq<nat>, numbered: bool)
    requires Flashed(fl.State(), list) && Tidy(fl.State()) && NoNulls(list) && fl.start + fl.total <= limit
    ensures total == fl.total && ids == Ids(list) && numbered
  {
    var k := fl.start;
    ids, numbered := [], true;
    FlashedNodes(fl.State(), list);
    while k < limit && k in fl.nodes && fl.nodes[k].table == fl.table
      invariant fl.start <= k <= fl.start + fl.total && numbered
      invariant ids == Ids(UpTo(list, k - fl.start))
    {
      IdsOfPacket(list, k - fl.start);
      numbered := numbered && fl.nodes[k].index == k - fl.start;
      var more := ActivatePacket(fl.nodes[k].items);
      ids := ids + more;
      k := k + 1;
    }
    total := k - fl.start;
    assert UpTo(list, total) == list;
  }
}

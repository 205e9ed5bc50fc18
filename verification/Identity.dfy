/**
 Finding devices by identity: an asynchronous search of a tree of buses, where every bridge starts one
 more scan and answers come back in any order.
 */
module Identity {
  import opened Operations

  /** A device record; `tag` stands for everything the search copies but does not look at. */
  datatype Component = Component(vendor: nat, device: nat, tag: nat)

  /** One record of a bus: a device, a bridge with the bus behind it, or something else. */
  datatype Entry = Device(component: Component) | Bridge(table: seq<Entry>) | Other

  predicate Wanted(vendor: nat, device: nat, e: Entry) {
    e.Device? && e.component.vendor == vendor && e.component.device == device
  }

  /** The matching records of a bus and of all buses behind it. */
  function Matches(vendor: nat, device: nat, table: seq<Entry>): multiset<Component>
    decreases table
  {
    if |table| == 0 then multiset{} else
      (if Wanted(vendor, device, table[0]) then multiset{table[0].component}
       else if table[0].Bridge? then Matches(vendor, device, table[0].table)
       else multiset{})
      + Matches(vendor, device, table[1..])
  }

  /** How often a device record is in the whole tree. */
  function Occurs(c: Component, table: seq<Entry>): nat
    decreases table
  {
    if |table| == 0 then 0 else
      (match table[0]
       case Device(component) => if component == c then 1 else 0
       case Bridge(behind) => Occurs(c, behind)
       case Other => 0)
      + Occurs(c, table[1..])
  }

  /** The matches are all records of that vendor and device, wherever they are in the tree, and nothing else. */
  lemma {:induction false} MatchesAre(vendor: nat, device: nat, table: seq<Entry>, c: Component)
    ensures Matches(vendor, device, table)[c] == if c.vendor == vendor && c.device == device then Occurs(c, table) else 0
    decreases table
  {
    if |table| > 0 {
      MatchesAre(vendor, device, table[1..], c);
      if table[0].Bridge? {
        MatchesAre(vendor, device, table[0].table, c);
      }
    }
  }

  /** Bridges of a bus and of all buses behind it. */
  function Bridges(table: seq<Entry>): nat
    decreases table
  {
    if |table| == 0 then 0 else
      (if table[0].Bridge? then 1 + Bridges(table[0].table) else 0) + Bridges(table[1..])
  }

  /** What the scans under way can still find, and how many buses they can still visit. */
  function Expected(vendor: nat, device: nat, scans: seq<seq<Entry>>): multiset<Component> {
    if |scans| == 0 then multiset{} else Matches(vendor, device, scans[0]) + Expected(vendor, device, scans[1..])
  }

  function Unvisited(scans: seq<seq<Entry>>): nat {
    if |scans| == 0 then 0 else 1 + Bridges(scans[0]) + Unvisited(scans[1..])
  }

  lemma {:induction false} ExpectedJoin(vendor: nat, device: nat, a: seq<seq<Entry>>, b: seq<seq<Entry>>)
    ensures Expected(vendor, device, a + b) == Expected(vendor, device, a) + Expected(vendor, device, b)
    ensures Unvisited(a + b) == Unvisited(a) + Unvisited(b)
  {
    hide Matches, Bridges;
    if |a| == 0 {
      assert a + b == b;
    } else {
      ExpectedJoin(vendor, device, a[1..], b);
      assert (a + b)[1..] == a[1..] + b;
    }
  }

  lemma ExpectedTake(vendor: nat, device: nat, scans: seq<seq<Entry>>, k: nat)
    requires k < |scans|
    ensures var left := scans[..k] + scans[k + 1..];
            && Expected(vendor, device, scans) == Matches(vendor, device, scans[k]) + Expected(vendor, device, left)
            && Unvisited(scans) == 1 + Bridges(scans[k]) + Unvisited(left)
  {
    hide Matches, Bridges;
    var one := [scans[k]];
    assert one[1..] == [];
    assert scans == scans[..k] + (one + scans[k + 1..]);
    ExpectedJoin(vendor, device, scans[..k], one + scans[k + 1..]);
    ExpectedJoin(vendor, device, one, scans[k + 1..]);
    ExpectedJoin(vendor, device, scans[..k], scans[k + 1..]);
  }

  lemma ExpectedSnoc(vendor: nat, device: nat, scans: seq<seq<Entry>>, table: seq<Entry>)
    ensures Expected(vendor, device, scans + [table]) == Expected(vendor, device, scans) + Matches(vendor, device, table)
    ensures Unvisited(scans + [table]) == Unvisited(scans) + 1 + Bridges(table)
  {
    hide Matches, Bridges;
    ExpectedJoin(vendor, device, scans, [table]);
    assert [table][1..] == [];
  }

  lemma TableStep(vendor: nat, device: nat, table: seq<Entry>)
    requires |table| > 0
    ensures table[0].Bridge? ==> Matches(vendor, device, table) == Matches(vendor, device, table[0].table) + Matches(vendor, device, table[1..])
    ensures table[0].Bridge? ==> Bridges(table) == 1 + Bridges(table[0].table) + Bridges(table[1..])
    ensures Wanted(vendor, device, table[0]) ==> Matches(vendor, device, table) == multiset{table[0].component} + Matches(vendor, device, table[1..])
    ensures !table[0].Bridge? ==> Bridges(table) == Bridges(table[1..])
    ensures !table[0].Bridge? && !Wanted(vendor, device, table[0]) ==> Matches(vendor, device, table) == Matches(vendor, device, table[1..])
  {
  }

  /** Found, lost, still to come on this bus, and still to come behind the scans under way. */
  ghost predicate Balanced(all: multiset<Component>, hits: seq<Component>, lost: multiset<Component>, now: multiset<Component>, later: multiset<Component>) {
    all == multiset(hits) + lost + (now + later)
  }

  lemma FollowBalance(vendor: nat, device: nat, all: multiset<Component>, hits: seq<Component>, lost: multiset<Component>, table: seq<Entry>, scans: seq<seq<Entry>>)
    requires |table| > 0 && table[0].Bridge?
    requires Balanced(all, hits, lost, Matches(vendor, device, table), Expected(vendor, device, scans))
    ensures Balanced(all, hits, lost, Matches(vendor, device, table[1..]), Expected(vendor, device, scans + [table[0].table]))
    ensures Balanced(all, hits, lost + Matches(vendor, device, table[0].table), Matches(vendor, device, table[1..]), Expected(vendor, device, scans))
    ensures Bridges(table) == 1 + Bridges(table[0].table) + Bridges(table[1..])
    ensures Unvisited(scans + [table[0].table]) == Unvisited(scans) + 1 + Bridges(table[0].table)
  {
    TableStep(vendor, device, table);
    ExpectedSnoc(vendor, device, scans, table[0].table);
    hide Matches, Expected, Unvisited, Bridges;
  }

  lemma HitBalance(vendor: nat, device: nat, all: multiset<Component>, hits: seq<Component>, lost: multiset<Component>, table: seq<Entry>, later: multiset<Component>)
    requires |table| > 0 && Wanted(vendor, device, table[0]) && Balanced(all, hits, lost, Matches(vendor, device, table), later)
    ensures Balanced(all, hits + [table[0].component], lost, Matches(vendor, device, table[1..]), later)
    ensures Bridges(table) == Bridges(table[1..])
  {
    TableStep(vendor, device, table);
    hide Matches, Bridges;
  }

  lemma RemoveBalance(vendor: nat, device: nat, all: multiset<Component>, hits: seq<Component>, lost: multiset<Component>, scans: seq<seq<Entry>>, k: nat)
    requires k < |scans| && Balanced(all, hits, lost, Matches(vendor, device, []), Expected(vendor, device, scans))
    ensures var left := scans[..k] + scans[k + 1..];
            && Balanced(all, hits, lost, Matches(vendor, device, scans[k]), Expected(vendor, device, left))
            && Balanced(all, hits, lost + Matches(vendor, device, scans[k]), Matches(vendor, device, []), Expected(vendor, device, left))
            && Unvisited(scans) == 1 + Bridges(scans[k]) + Unvisited(left) && Bridges([]) == 0
  {
    assert Matches(vendor, device, []) == multiset{} && Bridges([]) == 0;
    hide Matches, Expected, Unvisited, Bridges;
    ExpectedTake(vendor, device, scans, k);
  }

  class Search {
    const vendor: nat
    const device: nat
    /** The caller's array, and how many matches there were; more than fit are counted, not stored. */
    const output: array<Component>
    var fill: nat
    var pending: nat
    var status: Status
    /** The scans under way. */
    var scans: seq<seq<Entry>>
    /** The records of the current bus that are not looked at yet, the matches in the order they came, and
        those behind scans that failed. */
    ghost var current: seq<Entry>
    ghost var hits: seq<Component>
    ghost var lost: multiset<Component>

    function Stored(): nat
      reads this
    {
      if fill < output.Length then fill else output.Length
    }

    /** Every match of the tree was found, is still to come, or was lost to a failure that the status tells
        of. */
    ghost predicate Valid(all: multiset<Component>)
      reads this, output
    {
      && pending == |scans| && fill == |hits| && output[..Stored()] == hits[..Stored()]
      && Balanced(all, hits, lost, Matches(vendor, device, current), Expected(vendor, device, scans))
      && (status == OK ==> lost == multiset{})
    }

    constructor (vendor: nat, device: nat, output: array<Component>, root: seq<Entry>)
      ensures Valid(Matches(vendor, device, root)) && scans == [root] && status == OK && current == []
      ensures this.vendor == vendor && this.device == device && this.output == output
    {
      this.vendor, this.device, this.output := vendor, device, output;
      fill, pending, status, scans := 0, 1, OK, [root];
      current, hits, lost := [], [], multiset{};
      new;
      assert [root][1..] == [];
    }

    /** A bridge starts another scan, unless that fails. */
    method Follow(e: Entry, started: Status, ghost all: multiset<Component>)
      requires Valid(all) && current != [] && current[0] == e && e.Bridge?
      modifies this
      ensures Valid(all) && current == old(current[1..])
      ensures Unvisited(scans) + Bridges(current) <= old(Unvisited(scans) + Bridges(current))
      ensures status == if started == OK then old(status) else started
    {
      hide Matches, Bridges, Expected, Unvisited, Balanced;
      FollowBalance(vendor, device, all, hits, lost, current, scans);
      if started == OK {
        pending := pending + 1;
        scans := scans + [e.table];
      } else {
        status := started;
        lost := lost + Matches(vendor, device, e.table);
      }
      current := current[1..];
    }

    /** A matching device is copied out if there is room, and counted in any case. */
    method Hit(e: Entry, ghost all: multiset<Component>)
      requires Valid(all) && current != [] && current[0] == e && Wanted(vendor, device, e)
      modifies this, output
      ensures Valid(all) && current == old(current[1..])
      ensures Unvisited(scans) + Bridges(current) <= old(Unvisited(scans) + Bridges(current)) && status == old(status)
    {
      hide Matches, Bridges, Expected, Unvisited, Balanced;
      HitBalance(vendor, device, all, hits, lost, current, Expected(vendor, device, scans));
      if fill < output.Length {
        output[fill] := e.component;
      }
      fill := fill + 1;
      hits := hits + [e.component];
      current := current[1..];
    }

    /** Any other record is passed over. */
    ghost method Skip(e: Entry, all: multiset<Component>)
      requires Valid(all) && current != [] && current[0] == e && !e.Bridge? && !Wanted(vendor, device, e)
      modifies `current
      ensures Valid(all) && current == old(current[1..])
      ensures Unvisited(scans) + Bridges(current) <= old(Unvisited(scans) + Bridges(current))
    {
      TableStep(vendor, device, current);
      hide Matches, Bridges, Expected, Unvisited;
      current := current[1..];
    }

    /** A scan comes back, and with it its table unless it failed. */
    method Remove(k: nat, result: Status, ghost all: multiset<Component>)
      requires Valid(all) && current == [] && k < |scans|
      modifies this
      ensures Valid(all) && current == if result == OK then old(scans[k]) else []
      ensures Unvisited(scans) + Bridges(current) < old(Unvisited(scans))
      ensures status == if result == OK then old(status) else result
    {
      hide Matches, Bridges, Expected, Unvisited, Balanced;
      RemoveBalance(vendor, device, all, hits, lost, scans, k);
      pending := pending - 1;
      ghost var table := scans[k];
      scans := scans[..k] + scans[k + 1..];
      if result == OK {
        current := table;
      } else {
        status := result;
        lost := lost + Matches(vendor, device, table);
      }
    }

    /** eb_cb_find_by_identity: scan number `k` came back. `started` tells how starting a scan turns out. */
    method Arrive(k: nat, result: Status, started: nat -> Status, ghost all: multiset<Component>)
      requires Valid(all) && current == [] && k < |scans|
      modifies this, output
      ensures Valid(all) && current == []
      ensures Unvisited(scans) < old(Unvisited(scans))
      ensures old(status) != OK || result != OK ==> status != OK
      ensures old(status) == OK && result == OK && (forall i: nat :: started(i) == OK) ==> status == OK
    {
      hide Matches, Bridges, Expected, Unvisited, Search.Valid;
      var table := scans[k];
      Remove(k, result, all);
      if result != OK {
        return;
      }
      var i := 0;
      ghost var left := Unvisited(scans) + Bridges(current);
      while i < |table|
        invariant 0 <= i <= |table| && current == table[i..] && Valid(all)
        invariant Unvisited(scans) + Bridges(current) <= left
        invariant old(status) != OK ==> status != OK
        invariant old(status) == OK && (forall i: nat :: started(i) == OK) ==> status == OK
      {
        var e := table[i];
        if e.Bridge? {
          Follow(e, started(i), all);
        } else if Wanted(vendor, device, e) {
          Hit(e, all);
        } else {
          Skip(e, all);
        }
        i := i + 1;
      }
    }
  }

  lemma PrefixPart(a: seq<Component>, n: nat)
    requires n <= |a|
    ensures multiset(a[..n]) <= multiset(a)
  {
    assert a == a[..n] + a[n..];
  }

  /** The search as its caller sees it. The scans come back in any order; `answers` and `started` say which
      of them fail. It always ends; without a failure every match of the whole tree is counted, and the
      first of them, as many as fit, are in `output`. */
  method FindByIdentity(vendor: nat, device: nat, output: array<Component>, root: seq<Entry>, rootStarted: Status,
      answers: nat -> Status, started: (nat, nat) -> Status)
    returns (fill: nat, status: Status)
    modifies output
    ensures rootStarted != OK ==> fill == 0 && status == rootStarted
    ensures var stored := if fill < output.Length then fill else output.Length;
            multiset(output[..stored]) <= Matches(vendor, device, root) || rootStarted != OK
    ensures fill <= |Matches(vendor, device, root)|
    ensures status == OK ==> fill == |Matches(vendor, device, root)|
    ensures rootStarted == OK && (forall n: nat :: answers(n) == OK) && (forall n: nat, i: nat :: started(n, i) == OK) ==> status == OK
  {
    if rootStarted != OK {
      return 0, rootStarted;
    }
    var search := new Search(vendor, device, output, root);
    ghost var all := Matches(vendor, device, root);
    var n := 0;
    while search.pending > 0
      invariant search.output == output && search.vendor == vendor && search.device == device
      invariant search.Valid(all) && search.current == []
      invariant (forall n: nat :: answers(n) == OK) && (forall n: nat, i: nat :: started(n, i) == OK) ==> search.status == OK
      decreases Unvisited(search.scans)
    {
      hide Matches, Expected, Unvisited, Bridges, Balanced;
      var k :| 0 <= k < |search.scans|;
      search.Arrive(k, answers(n), (i: nat) => started(n, i), all);
      n := n + 1;
    }
    assert Expected(vendor, device, search.scans) == multiset{};
    PrefixPart(search.hits, search.Stored());
    return search.fill, search.status;
  }
}

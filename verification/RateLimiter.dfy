/**
  The rate limiter: a global counter, a table of counters for each network prefix length, created on
  demand and collected when idle, and a sorted list of specific networks that override the rest.
 */
module RateLimiters {
  import opened Numbers
  import opened Results
  import opened Sequences
  import opened RateCounters

  /** An address as its bits: 32 of them for IPv4, 128 for IPv6. */
  type Address = seq<bool>

  const IPV4_BITS := 32
  const IPV6_BITS := 128

  /** A network prefix; as a table key it stands for the printed form of the network. */
  type Prefix = seq<bool>

  type Table = map<Prefix, Counter>

  type Tables = map<nat, Table>

  /** A network with a prefix length, and its printed form. */
  datatype Network = Network(bits: Address, length: nat, printed: string)

  datatype AddressLimiter = AddressLimiter(network: Network, counter: Counter)

  datatype LimiterCfg = LimiterCfg(
    global: Option<CounterCfg>,
    perIPv4: map<nat, CounterCfg>,
    perIPv6: map<nat, CounterCfg>,
    addresses: seq<(Network, CounterCfg)>)

  predicate ValidNetwork(n: Network)
  {
    (|n.bits| == IPV4_BITS || |n.bits| == IPV6_BITS) && n.length <= |n.bits|
  }

  /** Prefix lengths are between 1 and the address size, as their parser ensures. */
  predicate ValidCfg(cfg: LimiterCfg)
  {
    && (forall p <- cfg.perIPv4 :: 1 <= p <= IPV4_BITS)
    && (forall p <- cfg.perIPv6 :: 1 <= p <= IPV6_BITS)
    && (forall a <- cfg.addresses :: ValidNetwork(a.0))
  }

  const MAPPED_BITS := 96

  /** How a sixteen-byte address starts that stands for an IPv4 address: 80 zeros and 16 ones. */
  function MappedPrefix(): (prefix: Prefix)
    ensures |prefix| == MAPPED_BITS
  {
    seq(MAPPED_BITS, i => i >= 80)
  }

  predicate IsMapped(addr: Address)
  {
    |addr| == IPV6_BITS && addr[..MAPPED_BITS] == MappedPrefix()
  }

  /** Go's To4: the four bytes of an IPv4 address in either form. */
  function To4(addr: Address): (a: Option<Address>)
    ensures a.Some? <==> |addr| == IPV4_BITS || IsMapped(addr)
    ensures a.Some? ==> |a.value| == IPV4_BITS
  {
    if |addr| == IPV4_BITS then Some(addr)
    else if IsMapped(addr) then Some(addr[MAPPED_BITS..])
    else None
  }

  /** An address as IPNet.Contains compares it: in four bytes whenever it has them. */
  function Normal(addr: Address): (a: Address)
  {
    To4(addr).GetOr(addr)
  }

  /** The prefix length that goes with the network's normal form: a mapped network loses 96 bits. */
  function PrefixLength(n: Network): (length: nat)
  {
    if !IsMapped(n.bits) then n.length
    else if n.length >= MAPPED_BITS then n.length - MAPPED_BITS else 0
  }

  predicate Contains(n: Network, addr: Address)
  {
    var number, ip, length := Normal(n.bits), Normal(addr), PrefixLength(n);
    |number| == |ip| && length <= |ip| && number[..length] == ip[..length]
  }

  /** Byte-wise comparison of printed networks. */
  predicate LexLess(a: string, b: string)
  {
    b != [] && (a == [] || a[0] < b[0] || (a[0] == b[0] && LexLess(a[1..], b[1..])))
  }

  /** The order of specific networks: shorter addresses first, then longer prefixes first. */
  predicate Before(a: Network, b: Network)
  {
    || |a.bits| < |b.bits|
    || (|a.bits| == |b.bits| && a.length > b.length)
    || (|a.bits| == |b.bits| && a.length == b.length && LexLess(a.printed, b.printed))
  }

  lemma LexTransitive(a: string, b: string, c: string)
    requires !LexLess(b, a) && !LexLess(c, b)
    ensures !LexLess(c, a)
  {
    if a != [] && b != [] && c != [] && a[0] == b[0] == c[0] {
      LexTransitive(a[1..], b[1..], c[1..]);
    }
  }

  lemma LexTotal(a: string, b: string)
    requires LexLess(a, b)
    ensures !LexLess(b, a)
  {
  }

  ghost predicate Sorted(s: seq<AddressLimiter>)
  {
    forall i, j :: 0 <= i < j < |s| ==> !Before(s[j].network, s[i].network)
  }

  lemma NotBeforeTransitive(a: Network, b: Network, c: Network)
    requires !Before(b, a) && !Before(c, b)
    ensures !Before(c, a)
  {
    if |a.bits| == |b.bits| == |c.bits| && a.length == b.length == c.length {
      LexTransitive(a.printed, b.printed, c.printed);
    }
  }

  lemma BeforeAsymmetric(a: Network, b: Network)
    requires Before(a, b)
    ensures !Before(b, a)
  {
    if |a.bits| == |b.bits| && a.length == b.length {
      LexTotal(a.printed, b.printed);
    }
  }

  function Insert(x: AddressLimiter, s: seq<AddressLimiter>): (r: seq<AddressLimiter>)
    ensures multiset(r) == multiset(s) + multiset{x}
  {
    if s == [] then [x]
    else if Before(s[0].network, x.network) then
      assert s == [s[0]] + s[1..];
      [s[0]] + Insert(x, s[1..])
    else [x] + s
  }

  lemma {:induction false} InsertSorted(x: AddressLimiter, s: seq<AddressLimiter>)
    requires Sorted(s)
    ensures Sorted(Insert(x, s))
  {
    var r := Insert(x, s);
    if s != [] {
      if Before(s[0].network, x.network) {
        InsertSorted(x, s[1..]);
        BeforeAsymmetric(s[0].network, x.network);
        forall y | y in r[1..]
          ensures !Before(y.network, s[0].network)
        {
          assert multiset(r[1..]) == multiset(s[1..]) + multiset{x};
          assert y in multiset(r[1..]);
          if y != x {
            assert y in multiset(s[1..]);
          }
        }
      } else {
        forall k | 0 < k < |s|
          ensures !Before(s[k].network, x.network)
        {
          NotBeforeTransitive(x.network, s[0].network, s[k].network);
        }
      }
    }
  }

  /** The sorted permutation that the library sort of the address list produces. */
  function SortLimiters(s: seq<AddressLimiter>): (r: seq<AddressLimiter>)
    ensures multiset(r) == multiset(s)
  {
    if s == [] then []
    else
      assert s == [s[0]] + s[1..];
      Insert(s[0], SortLimiters(s[1..]))
  }

  lemma {:induction false} SortIsSorted(s: seq<AddressLimiter>)
    ensures Sorted(SortLimiters(s))
  {
    if s != [] {
      SortIsSorted(s[1..]);
      InsertSorted(s[0], SortLimiters(s[1..]));
    }
  }

  /** Everything a limiter keeps. */
  datatype LimiterState = LimiterState(
    global: Option<Counter>,
    perIPv4: Tables,
    perIPv6: Tables,
    addresses: seq<AddressLimiter>)

  function CounterLimiters(cfgs: seq<(Network, CounterCfg)>, clock: int): (s: seq<AddressLimiter>)
    ensures |s| == |cfgs|
    ensures forall i :: 0 <= i < |s| ==> s[i] == AddressLimiter(cfgs[i].0, NewCounter(cfgs[i].1, clock))
  {
    seq(|cfgs|, i requires 0 <= i < |cfgs| => AddressLimiter(cfgs[i].0, NewCounter(cfgs[i].1, clock)))
  }

  function NewState(cfg: LimiterCfg, clock: int): (s: LimiterState)
  {
    LimiterState(
      if cfg.global.Some? then Some(NewCounter(cfg.global.value, clock)) else None,
      map p | p in cfg.perIPv4 :: map[],
      map p | p in cfg.perIPv6 :: map[],
      SortLimiters(CounterLimiters(cfg.addresses, clock)))
  }

  predicate ValidState(cfg: LimiterCfg, s: LimiterState)
  {
    s.perIPv4.Keys == cfg.perIPv4.Keys && s.perIPv6.Keys == cfg.perIPv6.Keys
    && (s.global.Some? <==> cfg.global.Some?)
  }

  /** One table entry's update: the counter is created when the table does not hold it. */
  function TouchEntry(table: Table, key: Prefix, cfg: CounterCfg, n: int, now: int, clock: int): (r: (Table, bool))
  {
    var c := if key in table then table[key] else NewCounter(cfg, clock);
    var (updated, pass) := UpdateCounter(c, n, now);
    (table[key := updated], pass)
  }

  /** All tables of a family, each at the address's network of its prefix length. */
  function TouchTables(tables: Tables, cfgs: map<nat, CounterCfg>, addr: Address, n: int, now: int, clock: int)
    : (r: Tables)
    requires tables.Keys == cfgs.Keys && forall p <- cfgs :: p <= |addr|
  {
    map p | p in tables :: TouchEntry(tables[p], addr[..p], cfgs[p], n, now, clock).0
  }

  predicate TablesPass(tables: Tables, cfgs: map<nat, CounterCfg>, addr: Address, n: int, now: int, clock: int)
    requires tables.Keys == cfgs.Keys && forall p <- cfgs :: p <= |addr|
  {
    forall p <- tables :: TouchEntry(tables[p], addr[..p], cfgs[p], n, now, clock).1
  }

  lemma AllTouched(
    tables: Tables, updated: Tables, cfgs: map<nat, CounterCfg>, addr: Address, n: int, now: int, clock: int)
    requires tables.Keys == cfgs.Keys == updated.Keys && forall p <- cfgs :: p <= |addr|
    requires forall p <- tables :: updated[p] == TouchEntry(tables[p], addr[..p], cfgs[p], n, now, clock).0
    ensures updated == TouchTables(tables, cfgs, addr, n, now, clock)
  {
  }

  /** The scan of the specific networks: entries are updated until one passes. */
  function ScanAddresses(entries: seq<AddressLimiter>, addr: Address, n: int, now: int)
    : (r: (seq<AddressLimiter>, bool))
    ensures |r.0| == |entries|
  {
    if entries == [] then ([], false)
    else if Contains(entries[0].network, addr) then
      var (updated, pass) := UpdateCounter(entries[0].counter, n, now);
      var first := entries[0].(counter := updated);
      if pass then ([first] + entries[1..], true)
      else
        var (rest, restPass) := ScanAddresses(entries[1..], addr, n, now);
        ([first] + rest, restPass)
    else
      var (rest, restPass) := ScanAddresses(entries[1..], addr, n, now);
      ([entries[0]] + rest, restPass)
  }

  function UpdateGlobal(global: Option<Counter>, n: int, now: int): (r: (Option<Counter>, bool))
  {
    if global.None? then (None, true)
    else
      var (updated, pass) := UpdateCounter(global.value, n, now);
      (Some(updated), pass)
  }

  function UpdateTables(
    tables: Tables, cfgs: map<nat, CounterCfg>, bits: nat, addr: Address, n: int, now: int, clock: int)
    : (r: (Tables, bool))
    requires tables.Keys == cfgs.Keys && forall p <- cfgs :: p <= bits
  {
    if |addr| == bits
    then (TouchTables(tables, cfgs, addr, n, now, clock), TablesPass(tables, cfgs, addr, n, now, clock))
    else (tables, true)
  }

  /** A whole update. Specific networks, when there are any, decide the verdict alone. */
  function UpdateState(cfg: LimiterCfg, s: LimiterState, n: int, addr: Address, now: int, clock: int)
    : (r: (LimiterState, bool))
    requires ValidCfg(cfg) && ValidState(cfg, s)
    ensures ValidState(cfg, r.0)
  {
    var (global, globalPass) := UpdateGlobal(s.global, n, now);
    var (v4, v4Pass) := UpdateTables(s.perIPv4, cfg.perIPv4, IPV4_BITS, addr, n, now, clock);
    var (v6, v6Pass) := UpdateTables(s.perIPv6, cfg.perIPv6, IPV6_BITS, addr, n, now, clock);
    var (addresses, addressPass) := ScanAddresses(s.addresses, addr, n, now);
    (LimiterState(global, v4, v6, addresses),
     if s.addresses != [] then addressPass else globalPass && v4Pass && v6Pass)
  }

  function CollectTable(table: Table): (r: Table)
  {
    map key | key in table && table[key].count != 0 :: table[key]
  }

  function CollectTables(tables: Tables): (r: Tables)
  {
    map p | p in tables :: CollectTable(tables[p])
  }

  function CollectState(s: LimiterState): (r: LimiterState)
  {
    s.(perIPv4 := CollectTables(s.perIPv4), perIPv6 := CollectTables(s.perIPv6))
  }

  lemma ReplaceHead<T>(done: seq<T>, left: seq<T>, x: T)
    requires left != []
    ensures (done + left)[|done| := x] == done + ([x] + left[1..]) == (done + [x]) + left[1..]
    ensures done + left == done + ([left[0]] + left[1..])
  {
  }

  class RateLimiter {
    const cfg: LimiterCfg
    var global: Option<Counter>
    var perIPv4: Tables
    var perIPv6: Tables
    var addresses: seq<AddressLimiter>

    ghost predicate Valid()
      reads this
    {
      ValidCfg(cfg) && ValidState(cfg, View())
    }

    ghost function View(): (s: LimiterState)
      reads this
    {
      LimiterState(global, perIPv4, perIPv6, addresses)
    }

    constructor (cfg: LimiterCfg, clock: int)
      requires ValidCfg(cfg)
      ensures this.cfg == cfg && Valid() && View() == NewState(cfg, clock)
    {
      this.cfg := cfg;
      global := if cfg.global.Some? then Some(NewCounter(cfg.global.value, clock)) else None;
      perIPv4 := map p | p in cfg.perIPv4 :: map[];
      perIPv6 := map p | p in cfg.perIPv6 :: map[];
      addresses := SortLimiters(CounterLimiters(cfg.addresses, clock));
    }

    /** Updates the counter of one network, which is created when the table does not hold it. */
    method TouchOne(table: Table, key: Prefix, cfg: CounterCfg, n: int, now: int, clock: int)
      returns (updated: Table, pass: bool)
      ensures (updated, pass) == TouchEntry(table, key, cfg, n, now, clock)
    {
      updated := table;
      if key !in table {
        updated := updated[key := NewCounter(cfg, clock)];
      }
      var (counter, ok) := UpdateCounter(updated[key], n, now);
      assert updated[key := counter] == table[key := counter];
      updated, pass := updated[key := counter], ok;
    }

    /** Updates the tables of one family, in any order of prefix lengths. */
    method TouchFamily(tables: Tables, cfgs: map<nat, CounterCfg>, addr: Address, n: int, now: int, clock: int)
      returns (updated: Tables, pass: bool)
      requires tables.Keys == cfgs.Keys && forall p <- cfgs :: p <= |addr|
      ensures updated == TouchTables(tables, cfgs, addr, n, now, clock)
      ensures pass == TablesPass(tables, cfgs, addr, n, now, clock)
    {
      updated, pass := tables, true;
      var todo := tables.Keys;
      ghost var refusing := 0;
      while todo != {}
        invariant todo <= tables.Keys == updated.Keys
        invariant forall p <- tables :: updated[p] ==
                                        if p in todo then tables[p]
                                        else TouchEntry(tables[p], addr[..p], cfgs[p], n, now, clock).0
        invariant pass ==> forall p <- tables :: p !in todo ==>
                                                   TouchEntry(tables[p], addr[..p], cfgs[p], n, now, clock).1
        invariant !pass ==> refusing in tables
                            && !TouchEntry(tables[refusing], addr[..refusing], cfgs[refusing], n, now, clock).1
        decreases |todo|
      {
        var p :| p in todo;
        var table, ok := TouchOne(updated[p], addr[..p], cfgs[p], n, now, clock);
        updated := updated[p := table];
        if !ok {
          pass, refusing := false, p;
        }
        todo := todo - {p};
      }
      AllTouched(tables, updated, cfgs, addr, n, now, clock);
    }

    /** A family is concerned only by addresses of its size. */
    method UpdateFamily(
      tables: Tables, cfgs: map<nat, CounterCfg>, bits: nat, addr: Address, n: int, now: int, clock: int)
      returns (updated: Tables, pass: bool)
      requires tables.Keys == cfgs.Keys && forall p <- cfgs :: p <= bits
      ensures (updated, pass) == UpdateTables(tables, cfgs, bits, addr, n, now, clock)
    {
      updated, pass := tables, true;
      if |addr| == bits {
        updated, pass := TouchFamily(tables, cfgs, addr, n, now, clock);
      }
    }

    method UpdateGlobalCounter(n: int, now: int) returns (pass: bool)
      modifies this`global
      ensures (global, pass) == UpdateGlobal(old(global), n, now)
    {
      pass := true;
      if global.Some? {
        var (counter, ok) := UpdateCounter(global.value, n, now);
        global, pass := Some(counter), ok;
      }
    }

    /** Updates the matching specific networks in order, until one passes. */
    method UpdateAddresses(n: int, addr: Address, now: int) returns (pass: bool)
      modifies this`addresses
      ensures (addresses, pass) == ScanAddresses(old(addresses), addr, n, now)
    {
      ghost var scan := ScanAddresses(addresses, addr, n, now);
      ghost var done: seq<AddressLimiter>, left := [], addresses;
      assert [] + scan.0 == scan.0;
      var i := 0;
      while i < |addresses|
        invariant i == |done| && addresses == done + left
        invariant scan == (done + ScanAddresses(left, addr, n, now).0, ScanAddresses(left, addr, n, now).1)
        decreases |left|
      {
        var entry := addresses[i];
        assert entry == left[0];
        var ok := false;
        if Contains(entry.network, addr) {
          var (counter, pass') := UpdateCounter(entry.counter, n, now);
          ok, entry := pass', entry.(counter := counter);
          addresses := addresses[i := entry];
        }
        ReplaceHead(done, left, entry);
        if ok {
          return true;
        }
        Associative(done, [entry], ScanAddresses(left[1..], addr, n, now).0);
        done, left := done + [entry], left[1..];
        i := i + 1;
      }
      assert left == [] && done + [] == done;
      return false;
    }

    method Update(n: int, addr: Address, now: int, clock: int) returns (verdict: bool)
      requires Valid()
      modifies this
      ensures (View(), verdict) == UpdateState(cfg, old(View()), n, addr, now, clock)
      ensures Valid()
    {
      var pass := UpdateGlobalCounter(n, now);
      var v4, v4Pass := UpdateFamily(perIPv4, cfg.perIPv4, IPV4_BITS, addr, n, now, clock);
      var v6, v6Pass := UpdateFamily(perIPv6, cfg.perIPv6, IPV6_BITS, addr, n, now, clock);
      perIPv4, perIPv6 := v4, v6;
      pass := pass && v4Pass && v6Pass;
      var addressPass := false;
      if addresses != [] {
        addressPass := UpdateAddresses(n, addr, now);
        if !addressPass {
          return false;
        }
      }
      return pass || addressPass;
    }

    /** Drops the idle counters of one table, in any order. */
    method DropIdle(table: Table) returns (kept: Table)
      ensures kept == CollectTable(table)
    {
      kept := table;
      var keys := table.Keys;
      while keys != {}
        invariant keys <= table.Keys
        invariant kept == map key | key in table && (key in keys || table[key].count != 0) :: table[key]
        decreases |keys|
      {
        var key :| key in keys;
        if kept[key].count == 0 {
          kept := kept - {key};
        }
        keys := keys - {key};
      }
    }

    /** Drops the idle counters of one family's tables, in any order. */
    method CollectFamily(tables: Tables) returns (collected: Tables)
      ensures collected == CollectTables(tables)
    {
      collected := tables;
      var todo := tables.Keys;
      while todo != {}
        invariant todo <= tables.Keys == collected.Keys
        invariant forall p <- tables :: collected[p] == if p in todo then tables[p] else CollectTable(tables[p])
        decreases |todo|
      {
        var p :| p in todo;
        var table := DropIdle(tables[p]);
        collected := collected[p := table];
        todo := todo - {p};
      }
    }

    method GC()
      requires Valid()
      modifies this
      ensures Valid() && View() == CollectState(old(View()))
    {
      perIPv4 := CollectFamily(perIPv4);
      perIPv6 := CollectFamily(perIPv6);
    }
  }

  /** An entry that the scan would charge. */
  predicate HasRoom(e: AddressLimiter, addr: Address, n: int, now: int)
  {
    Contains(e.network, addr) && UpdateCounter(e.counter, n, now).1
  }

  /** The first entry that matches and has room, if there is one. */
  ghost predicate FirstWithRoom(entries: seq<AddressLimiter>, addr: Address, n: int, now: int, i: int)
  {
    0 <= i < |entries| && HasRoom(entries[i], addr, n, now)
    && forall j :: 0 <= j < i ==> !HasRoom(entries[j], addr, n, now)
  }

  /** A refused update charges nothing: at most it empties an expired window. */
  lemma RefusalChargesNothing(c: Counter, n: int, now: int)
    requires !UpdateCounter(c, n, now).1
    ensures UpdateCounter(c, n, now).0 == c || UpdateCounter(c, n, now).0 == Rolled(c, now)
    ensures UpdateCounter(c, n, now).0.count == c.count || UpdateCounter(c, n, now).0.count == 0
  {
  }

  /**
    The scan passes exactly when some matching entry has room. It then charges the first such entry,
    updates the matching ones before it as refusals, and leaves all others as they were.
   */
  lemma {:induction false} Charging(entries: seq<AddressLimiter>, addr: Address, n: int, now: int)
    returns (charged: int)
    ensures var (after, pass) := ScanAddresses(entries, addr, n, now);
            && (pass <==> exists e <- entries :: HasRoom(e, addr, n, now))
            && (pass ==> FirstWithRoom(entries, addr, n, now, charged))
            && (!pass ==> charged == |entries|)
            && forall j :: 0 <= j < |entries| ==>
                 && after[j].network == entries[j].network
                 && after[j].counter == if j <= charged && Contains(entries[j].network, addr)
                                        then UpdateCounter(entries[j].counter, n, now).0 else entries[j].counter
    decreases |entries|
  {
    charged := 0;
    if entries != [] && !HasRoom(entries[0], addr, n, now) {
      var rest := Charging(entries[1..], addr, n, now);
      charged := rest + 1;
      ScanBehind(entries, addr, n, now);
      ShiftedByOne(entries, addr, n, now);
    }
  }

  lemma {:induction false} ShiftedByOne(entries: seq<AddressLimiter>, addr: Address, n: int, now: int)
    requires entries != [] && !HasRoom(entries[0], addr, n, now)
    ensures var (after, rest) := (ScanAddresses(entries, addr, n, now).0, ScanAddresses(entries[1..], addr, n, now).0);
            |after| == |rest| + 1
            && forall j :: 0 < j < |entries| ==> after[j] == rest[j - 1] && entries[j] == entries[1..][j - 1]
  {
    ScanBehind(entries, addr, n, now);
  }

  /** Behind an entry without room, the scan goes on as if that entry were not there. */
  lemma {:induction false} ScanBehind(entries: seq<AddressLimiter>, addr: Address, n: int, now: int)
    requires entries != [] && !HasRoom(entries[0], addr, n, now)
    ensures var e, (rest, pass) := entries[0], ScanAddresses(entries[1..], addr, n, now);
            var own := if Contains(e.network, addr) then e.(counter := UpdateCounter(e.counter, n, now).0) else e;
            ScanAddresses(entries, addr, n, now) == ([own] + rest, pass)
    ensures (exists e <- entries :: HasRoom(e, addr, n, now)) <==> exists e <- entries[1..] :: HasRoom(e, addr, n, now)
  {
    assert entries == [entries[0]] + entries[1..];
  }

  /** An IPv4 address in sixteen bytes, bit by bit: 80 zeros, 16 ones, and the four bytes. */
  ghost predicate InSixteenBytes(a: Address)
  {
    |a| == 128 && (forall k :: 0 <= k < 80 ==> !a[k]) && forall k :: 80 <= k < 96 ==> a[k]
  }

  /**
    Whether a network covers an address, on the bits as they are written: both of one form, or an IPv4
    address in four bytes against one in sixteen, whose last 32 bits count.
   */
  ghost predicate Covers(n: Network, addr: Address)
    requires ValidNetwork(n)
  {
    if |n.bits| == |addr| then
      (InSixteenBytes(n.bits) <==> InSixteenBytes(addr)) && forall k :: 0 <= k < n.length ==> n.bits[k] == addr[k]
    else if |n.bits| == 32 then
      InSixteenBytes(addr) && forall k :: 0 <= k < n.length ==> n.bits[k] == addr[96 + k]
    else
      InSixteenBytes(n.bits) && |addr| == 32 && forall k :: 96 <= k < n.length ==> n.bits[k] == addr[k - 96]
  }

  lemma {:induction false} MappedBits(a: Address)
    ensures IsMapped(a) <==> InSixteenBytes(a)
  {
    if |a| == IPV6_BITS {
      assert forall k :: 0 <= k < MAPPED_BITS ==> a[..MAPPED_BITS][k] == a[k] && (MappedPrefix()[k] <==> k >= 80);
      if InSixteenBytes(a) {
        assert a[..MAPPED_BITS] == MappedPrefix();
      }
    }
  }

  lemma {:induction false} PrefixesAgree(a: seq<bool>, b: seq<bool>, length: nat)
    requires length <= |a| && length <= |b|
    ensures a[..length] == b[..length] <==> forall k :: 0 <= k < length ==> a[k] == b[k]
  {
    if a[..length] == b[..length] {
      forall k | 0 <= k < length
        ensures a[k] == b[k]
      {
        assert a[..length][k] == b[..length][k];
      }
    }
  }

  /** Agreement of two mapped addresses is decided by their last 32 bits. */
  lemma {:induction false} BothMapped(a: Address, b: Address, length: nat)
    requires InSixteenBytes(a) && InSixteenBytes(b) && length <= 128
    ensures var rest: nat := if length >= 96 then length - 96 else 0;
            a[96..][..rest] == b[96..][..rest] <==> forall k :: 0 <= k < length ==> a[k] == b[k]
  {
    var rest: nat := if length >= 96 then length - 96 else 0;
    PrefixesAgree(a[96..], b[96..], rest);
    if a[96..][..rest] == b[96..][..rest] {
      forall k | 0 <= k < length
        ensures a[k] == b[k]
      {
        if k >= 96 {
          assert a[96..][k - 96] == b[96..][k - 96];
        }
      }
    } else {
      var k :| 0 <= k < rest && a[96..][k] != b[96..][k];
      assert a[96 + k] != b[96 + k];
    }
  }

  /** A mapped network is compared with four bytes from its bit 96 on. */
  lemma {:induction false} MappedAgainstFour(a: Address, b: Address, length: nat)
    requires InSixteenBytes(a) && |b| == 32 && length <= 128
    ensures var rest: nat := if length >= 96 then length - 96 else 0;
            a[96..][..rest] == b[..rest] <==> forall k :: 96 <= k < length ==> a[k] == b[k - 96]
  {
    var rest: nat := if length >= 96 then length - 96 else 0;
    PrefixesAgree(a[96..], b, rest);
    if a[96..][..rest] == b[..rest] {
      forall k | 96 <= k < length
        ensures a[k] == b[k - 96]
      {
        assert a[96..][k - 96] == b[k - 96];
      }
    } else {
      var k :| 0 <= k < rest && a[96..][k] != b[k];
      assert a[96 + k] != b[96 + k - 96];
    }
  }

  /** The comparison in normal form is that of the bits as they are written. */
  lemma {:induction false} ContainsIsCovers(n: Network, addr: Address)
    requires (|n.bits| == 32 || |n.bits| == 128) && n.length <= |n.bits|
    ensures Contains(n, addr) <==> Covers(n, addr)
  {
    MappedBits(n.bits);
    MappedBits(addr);
    if IsMapped(n.bits) {
      if IsMapped(addr) {
        BothMapped(n.bits, addr, n.length);
      } else if |addr| == IPV4_BITS {
        MappedAgainstFour(n.bits, addr, n.length);
      }
    } else if IsMapped(addr) {
      if |n.bits| == IPV4_BITS {
        PrefixesAgree(n.bits, addr[96..], n.length);
      }
    } else if |n.bits| == |addr| {
      PrefixesAgree(n.bits, addr, n.length);
    }
  }

  /** Whether the scan gets to an entry: none before it covers the address and has room. */
  ghost predicate Reached(entries: seq<AddressLimiter>, addr: Address, n: int, now: int, j: nat)
    requires j < |entries| && forall e <- entries :: ValidNetwork(e.network)
  {
    forall i :: 0 <= i < j && Covers(entries[i].network, addr) ==> !UpdateCounter(entries[i].counter, n, now).1
  }

  /**
    The scan on the bits: an entry changes only if its network covers the address and no entry before
    it has passed, and then by its own update. The verdict is that one of them passes.
   */
  lemma {:induction false} ScanByBits(entries: seq<AddressLimiter>, addr: Address, n: int, now: int)
    requires forall e <- entries :: ValidNetwork(e.network)
    ensures var (after, pass) := ScanAddresses(entries, addr, n, now);
            && (forall j :: 0 <= j < |entries| ==>
                  after[j] == if Covers(entries[j].network, addr) && Reached(entries, addr, n, now, j)
                              then entries[j].(counter := UpdateCounter(entries[j].counter, n, now).0) else entries[j])
            && (pass <==> exists j :: 0 <= j < |entries| && Covers(entries[j].network, addr)
                                      && UpdateCounter(entries[j].counter, n, now).1)
  {
    forall e | e in entries
      ensures Contains(e.network, addr) <==> Covers(e.network, addr)
    {
      ContainsIsCovers(e.network, addr);
    }
    assert forall j :: 0 <= j < |entries| ==> entries[j] in entries;
    var charged := Charging(entries, addr, n, now);
    forall j | 0 <= j < |entries|
      ensures Covers(entries[j].network, addr) ==> (Reached(entries, addr, n, now, j) <==> j <= charged)
    {
      if j > charged {
        assert HasRoom(entries[charged], addr, n, now);
      } else {
        forall i | 0 <= i < j && Covers(entries[i].network, addr)
          ensures !UpdateCounter(entries[i].counter, n, now).1
        {
          assert !HasRoom(entries[i], addr, n, now);
        }
      }
    }
  }

  /** With specific networks, an address that none of them covers is refused, and charges none of them. */
  lemma {:induction false} UncoveredIsRefused(
    cfg: LimiterCfg, s: LimiterState, n: int, addr: Address, now: int, clock: int)
    requires ValidCfg(cfg) && ValidState(cfg, s) && s.addresses != []
    requires forall e <- s.addresses :: ValidNetwork(e.network) && !Covers(e.network, addr)
    ensures var (after, pass) := UpdateState(cfg, s, n, addr, now, clock);
            !pass && after.addresses == s.addresses
  {
    ScanByBits(s.addresses, addr, n, now);
  }

  predicate FourBytes(e: AddressLimiter)
  {
    |e.network.bits| == IPV4_BITS
  }

  /**
    A four-byte network with room hides a sixteen-byte one with room that is more specific than all
    four-byte ones with room: entries are sorted by the size of their addresses first.
   */
  ghost predicate Hidden(entries: seq<AddressLimiter>, addr: Address, n: int, now: int)
  {
    && (exists j :: 0 <= j < |entries| && FourBytes(entries[j]) && HasRoom(entries[j], addr, n, now))
    && (exists k :: 0 <= k < |entries| && !FourBytes(entries[k]) && HasRoom(entries[k], addr, n, now)
                    && forall j :: 0 <= j < |entries| && FourBytes(entries[j]) && HasRoom(entries[j], addr, n, now) ==>
                         PrefixLength(entries[j].network) < PrefixLength(entries[k].network))
  }

  /** An entry that the scan would charge is not less specific than entry `i`'s. */
  ghost predicate MostSpecific(entries: seq<AddressLimiter>, addr: Address, n: int, now: int, i: nat)
    requires i < |entries|
  {
    forall j :: 0 <= j < |entries| && HasRoom(entries[j], addr, n, now) ==>
      PrefixLength(entries[i].network) >= PrefixLength(entries[j].network)
  }

  /** Entries that contain one address have normal forms of one size, so their raw lengths compare alike. */
  lemma SameSizeSameOrder(a: Network, b: Network, addr: Address)
    requires ValidNetwork(a) && ValidNetwork(b) && Contains(a, addr) && Contains(b, addr)
    requires |a.bits| == |b.bits| && a.length >= b.length
    ensures PrefixLength(a) >= PrefixLength(b)
  {
  }

  /**
    In sorted order the charged network is a most specific one among the matching ones of its own
    address size with room, and among all of them exactly when none is hidden.
   */
  lemma ChargedIsMostSpecific(entries: seq<AddressLimiter>, addr: Address, n: int, now: int, i: int)
    requires Sorted(entries) && FirstWithRoom(entries, addr, n, now, i)
    requires forall e <- entries :: ValidNetwork(e.network)
    ensures forall j :: 0 <= j < |entries| && HasRoom(entries[j], addr, n, now)
                        && |entries[j].network.bits| == |entries[i].network.bits| ==>
              PrefixLength(entries[i].network) >= PrefixLength(entries[j].network)
    ensures MostSpecific(entries, addr, n, now, i) <==> !Hidden(entries, addr, n, now)
  {
    forall j | 0 <= j < |entries| && HasRoom(entries[j], addr, n, now)
               && |entries[j].network.bits| == |entries[i].network.bits|
      ensures PrefixLength(entries[i].network) >= PrefixLength(entries[j].network)
    {
      assert i <= j && entries[i] in entries && entries[j] in entries;
      SameSizeSameOrder(entries[i].network, entries[j].network, addr);
    }
    if FourBytes(entries[i]) {
      HiddenOrNot(entries, addr, n, now, i);
    } else {
      forall j | 0 <= j < |entries| && HasRoom(entries[j], addr, n, now)
        ensures !FourBytes(entries[j])
      {
        assert i <= j && entries[i] in entries && entries[j] in entries;
      }
    }
  }

  lemma HiddenOrNot(entries: seq<AddressLimiter>, addr: Address, n: int, now: int, i: int)
    requires FirstWithRoom(entries, addr, n, now, i) && FourBytes(entries[i])
    requires forall e <- entries :: ValidNetwork(e.network)
    requires forall j :: 0 <= j < |entries| && HasRoom(entries[j], addr, n, now) && FourBytes(entries[j]) ==>
               PrefixLength(entries[i].network) >= PrefixLength(entries[j].network)
    ensures MostSpecific(entries, addr, n, now, i) <==> !Hidden(entries, addr, n, now)
  {
    if !MostSpecific(entries, addr, n, now, i) {
      var k :| 0 <= k < |entries| && HasRoom(entries[k], addr, n, now)
               && PrefixLength(entries[i].network) < PrefixLength(entries[k].network);
      assert !FourBytes(entries[k]);
    }
  }

  /** A single address that the scan would charge, although a four-byte network with room comes first. */
  ghost predicate HostPassedOver(entries: seq<AddressLimiter>, addr: Address, n: int, now: int)
  {
    exists j, k :: 0 <= j < k < |entries| && FourBytes(entries[j]) && !FourBytes(entries[k])
                   && HasRoom(entries[j], addr, n, now) && HasRoom(entries[k], addr, n, now)
  }

  /**
    Where IPv4 addresses in sixteen bytes are single ones, beside any IPv4 and IPv6 networks: the charged
    network is most specific exactly when no four-byte network with room is in front of a matching
    single address with room, or one of these networks is a single address too.
   */
  lemma {:induction false} HostsAreHidden(entries: seq<AddressLimiter>, addr: Address, n: int, now: int, i: int)
    requires Sorted(entries) && FirstWithRoom(entries, addr, n, now, i)
    requires forall e <- entries :: ValidNetwork(e.network)
    requires forall e <- entries :: IsMapped(e.network.bits) ==> e.network.length == IPV6_BITS
    ensures MostSpecific(entries, addr, n, now, i)
            <==> !HostPassedOver(entries, addr, n, now)
                 || exists j :: 0 <= j < |entries| && FourBytes(entries[j]) && HasRoom(entries[j], addr, n, now)
                                && entries[j].network.length == IPV4_BITS
  {
    ChargedIsMostSpecific(entries, addr, n, now, i);
    forall j, k | 0 <= j < |entries| && 0 <= k < |entries| && FourBytes(entries[j]) && !FourBytes(entries[k])
                  && HasRoom(entries[j], addr, n, now) && HasRoom(entries[k], addr, n, now)
      ensures j < k && PrefixLength(entries[k].network) == IPV4_BITS
      ensures PrefixLength(entries[j].network) == entries[j].network.length <= IPV4_BITS
    {
      assert entries[j] in entries && entries[k] in entries;
      FourBytesFirst(entries, j, k);
    }
  }

  lemma FourBytesFirst(entries: seq<AddressLimiter>, j: nat, k: nat)
    requires Sorted(entries) && j < |entries| && k < |entries|
    requires FourBytes(entries[j]) && |entries[k].network.bits| == IPV6_BITS
    ensures j < k
  {
    assert Before(entries[j].network, entries[k].network);
  }

  /**
    The witness: a client that has a limit of its own, inside an IPv4 network with one. However they
    are configured, the network comes first and is charged, and the client's own limit is not.
   */
  lemma NetworkChargedBeforeHost(net: AddressLimiter, host: AddressLimiter, addr: Address, n: int, now: int)
    requires IsMapped(addr) && host.network.bits == addr && host.network.length == IPV6_BITS
    requires FourBytes(net) && net.network.length < IPV4_BITS && HasRoom(net, addr, n, now) && HasRoom(host, addr, n, now)
    ensures SortLimiters([host] + [net]) == SortLimiters([net] + [host]) == [net] + [host]
    ensures ScanAddresses([net] + [host], addr, n, now)
         == ([net.(counter := UpdateCounter(net.counter, n, now).0)] + [host], true)
    ensures PrefixLength(net.network) < PrefixLength(host.network)
  {
    assert Before(net.network, host.network) && !Before(host.network, net.network);
    SortTwo(net, host);
    SortTwo(host, net);
    assert ([net] + [host])[1..] == [host];
  }

  lemma SortTwo(x: AddressLimiter, y: AddressLimiter)
    ensures SortLimiters([x] + [y]) == if Before(y.network, x.network) then [y] + [x] else [x] + [y]
  {
    var both := [x] + [y];
    assert both[1..] == [y] && [y][1..] == [];
    assert SortLimiters([y]) == Insert(y, SortLimiters([y][1..])) == [y];
    assert Insert(x, [y][1..]) == [x];
  }

  /** The scan never reorders the entries or changes their networks. */
  lemma ScanKeepsSorted(entries: seq<AddressLimiter>, addr: Address, n: int, now: int)
    requires Sorted(entries)
    ensures Sorted(ScanAddresses(entries, addr, n, now).0)
  {
    var _ := Charging(entries, addr, n, now);
  }

  /** Without specific networks, a pass is a pass of every counter that is touched. */
  lemma PassOfEach(cfg: LimiterCfg, s: LimiterState, key: Key, n: int, addr: Address, now: int, clock: int)
    requires ValidCfg(cfg) && ValidState(cfg, s) && s.addresses == []
    requires UpdateState(cfg, s, n, addr, now, clock).1 && Touches(cfg, s, key, n, addr, now)
    ensures UpdateCounter(Current(cfg, s, key, clock), n, now).1
  {
    match key
    case Global =>
    case PerNetwork(family, p, prefix) =>
      assert UpdateCounter(Current(cfg, s, key, clock), n, now).1
          == TouchEntry(TablesOf(s, family)[p], prefix, CfgsOf(cfg, family)[p], n, now, clock).1;
    case Specific(_) =>
  }

  /** A family's tables pass when the counter of each of the address's prefixes does. */
  lemma FamilyPasses(cfg: LimiterCfg, s: LimiterState, family: Family, n: int, addr: Address, now: int, clock: int)
    requires ValidCfg(cfg) && ValidState(cfg, s) && s.addresses == [] && |addr| == BitsOf(family)
    requires forall key :: Touches(cfg, s, key, n, addr, now) ==> UpdateCounter(Current(cfg, s, key, clock), n, now).1
    ensures TablesPass(TablesOf(s, family), CfgsOf(cfg, family), addr, n, now, clock)
  {
    forall p | p in CfgsOf(cfg, family)
      ensures TouchEntry(TablesOf(s, family)[p], addr[..p], CfgsOf(cfg, family)[p], n, now, clock).1
    {
      assert Touches(cfg, s, PerNetwork(family, p, addr[..p]), n, addr, now);
    }
  }

  lemma EachPasses(cfg: LimiterCfg, s: LimiterState, n: int, addr: Address, now: int, clock: int)
    requires ValidCfg(cfg) && ValidState(cfg, s) && s.addresses == []
    requires forall key :: Touches(cfg, s, key, n, addr, now) ==> UpdateCounter(Current(cfg, s, key, clock), n, now).1
    ensures UpdateState(cfg, s, n, addr, now, clock).1
  {
    assert cfg.global.Some? ==> Touches(cfg, s, Global, n, addr, now);
    if |addr| == IPV4_BITS {
      FamilyPasses(cfg, s, IPv4, n, addr, now, clock);
    }
    if |addr| == IPV6_BITS {
      FamilyPasses(cfg, s, IPv6, n, addr, now, clock);
    }
  }

  /** The whole verdict, in terms of the single counters before the update. */
  lemma Verdict(cfg: LimiterCfg, s: LimiterState, n: int, addr: Address, now: int, clock: int)
    requires ValidCfg(cfg) && ValidState(cfg, s)
    ensures UpdateState(cfg, s, n, addr, now, clock).1
            <==> if s.addresses != [] then exists e <- s.addresses :: HasRoom(e, addr, n, now)
                 else forall key :: Touches(cfg, s, key, n, addr, now) ==>
                        UpdateCounter(Current(cfg, s, key, clock), n, now).1
  {
    if s.addresses != [] {
      var _ := Charging(s.addresses, addr, n, now);
    } else {
      if UpdateState(cfg, s, n, addr, now, clock).1 {
        forall key | Touches(cfg, s, key, n, addr, now)
          ensures UpdateCounter(Current(cfg, s, key, clock), n, now).1
        {
          PassOfEach(cfg, s, key, n, addr, now, clock);
        }
      }
      if forall key :: Touches(cfg, s, key, n, addr, now) ==> UpdateCounter(Current(cfg, s, key, clock), n, now).1 {
        EachPasses(cfg, s, n, addr, now, clock);
      }
    }
  }

  datatype Family = IPv4 | IPv6

  /** The counters of a limiter: where each one is kept. */
  datatype Key =
    | Global
    | PerNetwork(family: Family, length: nat, prefix: Prefix)
    | Specific(index: nat)

  function BitsOf(family: Family): (bits: nat)
  {
    if family.IPv4? then IPV4_BITS else IPV6_BITS
  }

  function CfgsOf(cfg: LimiterCfg, family: Family): (cfgs: map<nat, CounterCfg>)
  {
    if family.IPv4? then cfg.perIPv4 else cfg.perIPv6
  }

  function TablesOf(s: LimiterState, family: Family): (tables: Tables)
  {
    if family.IPv4? then s.perIPv4 else s.perIPv6
  }

  function SortedCfgs(cfg: LimiterCfg): (cfgs: seq<AddressLimiter>)
  {
    SortLimiters(CounterLimiters(cfg.addresses, 0))
  }

  /** The counter kept under a key, if it exists. */
  function Lookup(s: LimiterState, key: Key): (c: Option<Counter>)
  {
    match key
    case Global => s.global
    case PerNetwork(family, p, prefix) =>
      var tables := TablesOf(s, family);
      if p in tables && prefix in tables[p] then Some(tables[p][prefix]) else None
    case Specific(i) => if i < |s.addresses| then Some(s.addresses[i].counter) else None
  }

  /** Whether an update reaches a counter. */
  predicate Touches(cfg: LimiterCfg, s: LimiterState, key: Key, n: int, addr: Address, now: int)
  {
    match key
    case Global => cfg.global.Some?
    case PerNetwork(family, p, prefix) =>
      |addr| == BitsOf(family) && p in CfgsOf(cfg, family) && p <= |addr| && addr[..p] == prefix
    case Specific(i) =>
      i < |s.addresses| && Contains(s.addresses[i].network, addr)
      && forall j :: 0 <= j < i ==> !HasRoom(s.addresses[j], addr, n, now)
  }

  /** The counter that an update of a key works on. */
  function Current(cfg: LimiterCfg, s: LimiterState, key: Key, clock: int): (c: Counter)
    requires ValidState(cfg, s)
  {
    match Lookup(s, key)
    case Some(c) => c
    case None =>
      NewCounter(if key.PerNetwork? && key.length in CfgsOf(cfg, key.family) then CfgsOf(cfg, key.family)[key.length]
                 else CounterCfg(0, 0), clock)
  }

  /**
    Isolation: an update replaces exactly the counters that it reaches, each by its own update, and
    leaves every other counter as it is, in particular those of other networks of the same length.
   */
  lemma Isolation(cfg: LimiterCfg, s: LimiterState, n: int, addr: Address, now: int, clock: int, key: Key)
    requires ValidCfg(cfg) && ValidState(cfg, s)
    ensures var after := UpdateState(cfg, s, n, addr, now, clock).0;
            Lookup(after, key) == if Touches(cfg, s, key, n, addr, now)
                                  then Some(UpdateCounter(Current(cfg, s, key, clock), n, now).0)
                                  else Lookup(s, key)
  {
    if key.Specific? {
      IsolationOfSpecific(cfg, s, n, addr, now, clock, key.index);
    } else if key.PerNetwork? {
      IsolationOfNetwork(cfg, s, n, addr, now, clock, key);
    }
  }

  lemma IsolationOfNetwork(cfg: LimiterCfg, s: LimiterState, n: int, addr: Address, now: int, clock: int, key: Key)
    requires ValidCfg(cfg) && ValidState(cfg, s) && key.PerNetwork?
    ensures var after := UpdateState(cfg, s, n, addr, now, clock).0;
            Lookup(after, key) == if Touches(cfg, s, key, n, addr, now)
                                  then Some(UpdateCounter(Current(cfg, s, key, clock), n, now).0)
                                  else Lookup(s, key)
  {
    var after := UpdateState(cfg, s, n, addr, now, clock).0;
    assert TablesOf(after, key.family)
        == UpdateTables(TablesOf(s, key.family), CfgsOf(cfg, key.family), BitsOf(key.family), addr, n, now, clock).0;
  }

  lemma IsolationOfSpecific(
    cfg: LimiterCfg, s: LimiterState, n: int, addr: Address, now: int, clock: int, i: nat)
    requires ValidCfg(cfg) && ValidState(cfg, s)
    ensures var after := UpdateState(cfg, s, n, addr, now, clock).0;
            Lookup(after, Specific(i)) == if Touches(cfg, s, Specific(i), n, addr, now)
                                          then Some(UpdateCounter(Current(cfg, s, Specific(i), clock), n, now).0)
                                          else Lookup(s, Specific(i))
  {
    var charged := Charging(s.addresses, addr, n, now);
    if i < |s.addresses| && ScanAddresses(s.addresses, addr, n, now).1 {
      assert (i <= charged) <==> forall j :: 0 <= j < i ==> !HasRoom(s.addresses[j], addr, n, now);
    }
  }

  /** What happens to a limiter. An update carries its timestamp and the clock when it runs. */
  datatype Event =
    | Update(n: nat, addr: Address, now: int, clock: int)
    | Collect

  function StepLimiter(cfg: LimiterCfg, s: LimiterState, e: Event): (r: LimiterState)
    requires ValidCfg(cfg) && ValidState(cfg, s)
    ensures ValidState(cfg, r)
  {
    match e
    case Update(n, addr, now, clock) => UpdateState(cfg, s, n, addr, now, clock).0
    case Collect => CollectState(s)
  }

  function RunLimiter(cfg: LimiterCfg, start: int, events: seq<Event>): (s: LimiterState)
    requires ValidCfg(cfg)
    ensures ValidState(cfg, s)
  {
    if events == [] then NewState(cfg, start)
    else StepLimiter(cfg, RunLimiter(cfg, start, events[..|events| - 1]), events[|events| - 1])
  }

  /** At any time the specific networks are in order, so a pass charges a most specific one. */
  lemma {:induction false} RunKeepsSorted(cfg: LimiterCfg, start: int, events: seq<Event>)
    requires ValidCfg(cfg)
    ensures Sorted(RunLimiter(cfg, start, events).addresses)
  {
    if events == [] {
      SortIsSorted(CounterLimiters(cfg.addresses, start));
    } else {
      var before, e := events[..|events| - 1], events[|events| - 1];
      RunKeepsSorted(cfg, start, before);
      if e.Update? {
        ScanKeepsSorted(RunLimiter(cfg, start, before).addresses, e.addr, e.n, e.now);
      }
    }
  }

  /** The part of an event that concerns one counter. */
  function Projected(cfg: LimiterCfg, s: LimiterState, key: Key, e: Event): (es: seq<KeyEvent>)
  {
    match e
    case Update(n, addr, now, clock) => if Touches(cfg, s, key, n, addr, now) then [Touch(n, now, clock)] else []
    case Collect => if key.PerNetwork? then [Drop] else []
  }

  /** The history of one counter within that of the limiter. */
  function KeyHistory(cfg: LimiterCfg, start: int, events: seq<Event>, key: Key): (es: seq<KeyEvent>)
    requires ValidCfg(cfg)
  {
    if events == [] then (if key.PerNetwork? then [] else [Create(start)])
    else
      var before := events[..|events| - 1];
      KeyHistory(cfg, start, before, key)
      + Projected(cfg, RunLimiter(cfg, start, before), key, events[|events| - 1])
  }

  /** The configuration of a counter, if the limiter has such a counter. */
  function KeyCfg(cfg: LimiterCfg, key: Key): (c: Option<CounterCfg>)
  {
    match key
    case Global => cfg.global
    case PerNetwork(family, p, _) =>
      if p in CfgsOf(cfg, family) then Some(CfgsOf(cfg, family)[p]) else None
    case Specific(i) =>
      var cfgs := SortedCfgs(cfg);
      if i < |cfgs| then Some(CounterCfg(cfgs[i].counter.limit, cfgs[i].counter.period)) else None
  }

  /** What one event adds to the accepted updates of a counter. */
  function AcceptedIn(cfg: LimiterCfg, s: LimiterState, key: Key, e: Event): (log: seq<Accepted>)
    requires ValidState(cfg, s)
  {
    if e.Update? && Touches(cfg, s, key, e.n, e.addr, e.now) then
      var (updated, pass) := UpdateCounter(Current(cfg, s, key, e.clock), e.n, e.now);
      if pass then [Accepted(e.now, e.n, updated.start)] else []
    else []
  }

  /** The accepted updates of one counter, in the order in which the limiter processed them. */
  function AcceptedLog(cfg: LimiterCfg, start: int, events: seq<Event>, key: Key): (log: seq<Accepted>)
    requires ValidCfg(cfg)
  {
    if events == [] then []
    else
      var before, e := events[..|events| - 1], events[|events| - 1];
      var s := RunLimiter(cfg, start, before);
      AcceptedLog(cfg, start, before, key) + AcceptedIn(cfg, s, key, e)
  }

  /** Counters of one configuration, whenever they were created. */
  predicate Alike(a: AddressLimiter, b: AddressLimiter)
  {
    a.network == b.network && a.counter.limit == b.counter.limit && a.counter.period == b.counter.period
  }

  ghost predicate AllAlike(s: seq<AddressLimiter>, t: seq<AddressLimiter>)
  {
    |s| == |t| && forall i :: 0 <= i < |s| ==> Alike(s[i], t[i])
  }

  /** Sorting looks at networks only: when the counters were created makes no difference. */
  lemma {:induction false} InsertAlike(x: AddressLimiter, y: AddressLimiter, s: seq<AddressLimiter>, t: seq<AddressLimiter>)
    requires Alike(x, y) && AllAlike(s, t)
    ensures AllAlike(Insert(x, s), Insert(y, t))
  {
    if s != [] && Before(s[0].network, x.network) {
      InsertAlike(x, y, s[1..], t[1..]);
      ConsAlike(s[0], t[0], Insert(x, s[1..]), Insert(y, t[1..]));
    } else {
      ConsAlike(x, y, s, t);
    }
  }

  lemma ConsAlike(x: AddressLimiter, y: AddressLimiter, s: seq<AddressLimiter>, t: seq<AddressLimiter>)
    requires Alike(x, y) && AllAlike(s, t)
    ensures AllAlike([x] + s, [y] + t)
  {
  }

  predicate FreshAt(c: Counter, clock: int)
  {
    c == NewCounter(CounterCfg(c.limit, c.period), clock)
  }

  lemma {:induction false} SortAlike(s: seq<AddressLimiter>, t: seq<AddressLimiter>)
    requires AllAlike(s, t)
    ensures AllAlike(SortLimiters(s), SortLimiters(t))
  {
    if s != [] {
      SortAlike(s[1..], t[1..]);
      InsertAlike(s[0], t[0], SortLimiters(s[1..]), SortLimiters(t[1..]));
    }
  }

  /** The specific counters start fresh, each with the configuration of its place in the order. */
  lemma SpecificStart(cfg: LimiterCfg, start: int)
    ensures var es := NewState(cfg, start).addresses;
            && |es| == |SortedCfgs(cfg)|
            && forall i :: 0 <= i < |es| ==>
                 && es[i].network == SortedCfgs(cfg)[i].network
                 && es[i].counter == NewCounter(KeyCfg(cfg, Specific(i)).value, start)
  {
    var here, zero := CounterLimiters(cfg.addresses, start), CounterLimiters(cfg.addresses, 0);
    SortAlike(here, zero);
    SortedFresh(here, start);
    var es, cfgs := SortLimiters(here), SortLimiters(zero);
    forall i | 0 <= i < |es|
      ensures es[i].counter == NewCounter(CounterCfg(cfgs[i].counter.limit, cfgs[i].counter.period), start)
    {
      assert es[i] in es;
    }
  }

  lemma SortedFresh(s: seq<AddressLimiter>, clock: int)
    requires forall e <- s :: FreshAt(e.counter, clock)
    ensures forall e <- SortLimiters(s) :: FreshAt(e.counter, clock)
  {
    forall e | e in SortLimiters(s)
      ensures FreshAt(e.counter, clock)
    {
      assert e in multiset(SortLimiters(s));
      assert e in multiset(s);
    }
  }

  /**
    Every counter of a limiter goes through exactly its own history: what other networks do, and in
    which order, makes no difference to it.
   */
  lemma {:induction false} CounterHistory(cfg: LimiterCfg, start: int, events: seq<Event>, key: Key)
    requires ValidCfg(cfg) && KeyCfg(cfg, key).Some?
    ensures KeyRun(KeyCfg(cfg, key).value, KeyHistory(cfg, start, events, key))
         == KeyState(Lookup(RunLimiter(cfg, start, events), key), AcceptedLog(cfg, start, events, key))
    decreases |events|
  {
    if events == [] {
      HistoryStart(cfg, start, key);
    } else {
      CounterHistory(cfg, start, events[..|events| - 1], key);
      HistoryNext(cfg, start, events, key);
    }
  }

  lemma HistoryStart(cfg: LimiterCfg, start: int, key: Key)
    requires ValidCfg(cfg) && KeyCfg(cfg, key).Some?
    ensures KeyRun(KeyCfg(cfg, key).value, if key.PerNetwork? then [] else [Create(start)])
         == KeyState(Lookup(NewState(cfg, start), key), [])
  {
    SpecificStart(cfg, start);
    RunSnoc(KeyCfg(cfg, key).value, [], Create(start));
    assert [] + [Create(start)] == [Create(start)];
  }

  lemma HistoryNext(cfg: LimiterCfg, start: int, events: seq<Event>, key: Key)
    requires ValidCfg(cfg) && KeyCfg(cfg, key).Some? && events != []
    requires var before := events[..|events| - 1];
             KeyRun(KeyCfg(cfg, key).value, KeyHistory(cfg, start, before, key))
             == KeyState(Lookup(RunLimiter(cfg, start, before), key), AcceptedLog(cfg, start, before, key))
    ensures KeyRun(KeyCfg(cfg, key).value, KeyHistory(cfg, start, events, key))
         == KeyState(Lookup(RunLimiter(cfg, start, events), key), AcceptedLog(cfg, start, events, key))
  {
    var before, e := events[..|events| - 1], events[|events| - 1];
    var s, log := RunLimiter(cfg, start, before), AcceptedLog(cfg, start, before, key);
    ProjectedStep(cfg, s, log, e, key);
    RunProjected(KeyCfg(cfg, key).value, KeyHistory(cfg, start, before, key), Projected(cfg, s, key, e));
  }

  /** A counter's state after a projected event, of which there is at most one. */
  function Apply(c: CounterCfg, t: KeyState, es: seq<KeyEvent>): (u: KeyState)
  {
    if es == [] then t else KeyStep(c, t, es[0])
  }

  lemma RunProjected(c: CounterCfg, history: seq<KeyEvent>, es: seq<KeyEvent>)
    requires |es| <= 1
    ensures KeyRun(c, history + es) == Apply(c, KeyRun(c, history), es)
  {
    if es == [] {
      assert history + es == history;
    } else {
      assert es == [es[0]];
      RunSnoc(c, history, es[0]);
    }
  }

  /** A counter that does not exist yet is created with the configuration of its key. */
  lemma CurrentIs(cfg: LimiterCfg, s: LimiterState, key: Key, n: int, addr: Address, now: int, clock: int)
    requires ValidCfg(cfg) && ValidState(cfg, s) && KeyCfg(cfg, key).Some?
    requires Touches(cfg, s, key, n, addr, now)
    ensures Current(cfg, s, key, clock)
         == if Lookup(s, key).Some? then Lookup(s, key).value else NewCounter(KeyCfg(cfg, key).value, clock)
  {
  }

  /** Collecting drops the idle counters of the networks, and no others. */
  lemma CollectIsolation(s: LimiterState, key: Key)
    ensures Lookup(CollectState(s), key)
         == if key.PerNetwork? && Lookup(s, key).Some? && Lookup(s, key).value.count == 0 then None else Lookup(s, key)
  {
  }

  /** One update of the limiter is, for one counter, one touch of it or nothing. */
  lemma UpdateStep(cfg: LimiterCfg, s: LimiterState, log: seq<Accepted>, e: Event, key: Key)
    requires ValidCfg(cfg) && ValidState(cfg, s) && KeyCfg(cfg, key).Some? && e.Update?
    ensures KeyState(Lookup(StepLimiter(cfg, s, e), key), log + AcceptedIn(cfg, s, key, e))
         == if Touches(cfg, s, key, e.n, e.addr, e.now)
            then KeyStep(KeyCfg(cfg, key).value, KeyState(Lookup(s, key), log), Touch(e.n, e.now, e.clock))
            else KeyState(Lookup(s, key), log)
  {
    assert log + [] == log;
    Isolation(cfg, s, e.n, e.addr, e.now, e.clock, key);
    if Touches(cfg, s, key, e.n, e.addr, e.now) {
      CurrentIs(cfg, s, key, e.n, e.addr, e.now, e.clock);
      var c := Current(cfg, s, key, e.clock);
      assert Lookup(StepLimiter(cfg, s, e), key) == Some(UpdateCounter(c, e.n, e.now).0);
    }
  }

  /** One event of the limiter is, for one counter, its projected event. */
  lemma ProjectedStep(cfg: LimiterCfg, s: LimiterState, log: seq<Accepted>, e: Event, key: Key)
    requires ValidCfg(cfg) && ValidState(cfg, s) && KeyCfg(cfg, key).Some?
    ensures KeyState(Lookup(StepLimiter(cfg, s, e), key), log + AcceptedIn(cfg, s, key, e))
         == Apply(KeyCfg(cfg, key).value, KeyState(Lookup(s, key), log), Projected(cfg, s, key, e))
  {
    if e.Update? {
      UpdateStep(cfg, s, log, e, key);
    } else {
      assert log + [] == log;
      CollectIsolation(s, key);
    }
  }

  /**
    Whatever a limiter is asked, in any order of timestamps, with collections at any time: none of
    its counters accepts more than twice its limit in any window of its period. Only the counters of
    networks, which can be dropped, ask something of the clock: not to create them again behind
    their newest window.
   */
  lemma LimiterBound(cfg: LimiterCfg, start: int, events: seq<Event>, key: Key, from: int)
    requires ValidCfg(cfg) && KeyCfg(cfg, key).Some? && KeyCfg(cfg, key).value.period > 0
    requires key.PerNetwork? ==> Forward(KeyCfg(cfg, key).value, KeyHistory(cfg, start, events, key))
    ensures var c := KeyCfg(cfg, key).value;
            UnitsIn(AcceptedLog(cfg, start, events, key), from, from + c.period) <= 2 * Max(0, c.limit)
  {
    var es := OwnHistory(cfg, start, events, key);
    var to := from + KeyCfg(cfg, key).value.period;
    assert UnitsIn(KeyRun(KeyCfg(cfg, key).value, es).log, from, to) <= 2 * Max(0, KeyCfg(cfg, key).value.limit);
  }

  /** A counter's own history, which accepts the same updates, is bounded. */
  lemma OwnHistory(cfg: LimiterCfg, start: int, events: seq<Event>, key: Key) returns (es: seq<KeyEvent>)
    requires ValidCfg(cfg) && KeyCfg(cfg, key).Some? && KeyCfg(cfg, key).value.period > 0
    requires key.PerNetwork? ==> Forward(KeyCfg(cfg, key).value, KeyHistory(cfg, start, events, key))
    ensures Bounded(KeyCfg(cfg, key).value, es)
    ensures KeyRun(KeyCfg(cfg, key).value, es).log == AcceptedLog(cfg, start, events, key)
  {
    es := KeyHistory(cfg, start, events, key);
    CounterHistory(cfg, start, events, key);
    if !key.PerNetwork? {
      NoDrops(cfg, start, events, key);
      NeverDropped(KeyCfg(cfg, key).value, es);
    }
    ForwardBounded(KeyCfg(cfg, key).value, es);
  }

  lemma {:induction false} NoDrops(cfg: LimiterCfg, start: int, events: seq<Event>, key: Key)
    requires ValidCfg(cfg) && !key.PerNetwork?
    ensures forall e <- KeyHistory(cfg, start, events, key) :: !e.Drop?
    decreases |events|
  {
    if events != [] {
      NoDrops(cfg, start, events[..|events| - 1], key);
    }
  }

  /** A clock that never goes back behind an earlier reading or timestamp; `start` is the limiter's creation. */
  ghost predicate CausalEvents(start: int, events: seq<Event>)
  {
    && (forall i :: 0 <= i < |events| && events[i].Update? ==> start <= events[i].clock)
    && (forall i, j :: 0 <= i < j < |events| && events[i].Update? && events[j].Update? ==>
                         events[i].now <= events[j].clock && events[i].clock <= events[j].clock)
  }

  lemma {:induction false} HistoryBelow(cfg: LimiterCfg, start: int, events: seq<Event>, key: Key, clock: int)
    requires ValidCfg(cfg) && start <= clock
    requires forall e <- events :: e.Update? ==> e.now <= clock && e.clock <= clock
    ensures forall k <- KeyHistory(cfg, start, events, key) :: !k.Drop? ==>
              k.clock <= clock && (k.Touch? ==> k.now <= clock)
    decreases |events|
  {
    if events != [] {
      assert events[|events| - 1] in events;
      HistoryBelow(cfg, start, events[..|events| - 1], key, clock);
    }
  }

  lemma EarlierBelow(start: int, events: seq<Event>)
    requires CausalEvents(start, events) && events != [] && events[|events| - 1].Update?
    ensures var before, e := events[..|events| - 1], events[|events| - 1];
            CausalEvents(start, before) && forall d <- before :: d.Update? ==> d.now <= e.clock && d.clock <= e.clock
  {
    var before, e := events[..|events| - 1], events[|events| - 1];
    assert forall i :: 0 <= i < |before| ==> before[i] == events[i];
  }

  /** Under such a clock, every counter goes forward, so the bound holds for all of them. */
  lemma {:induction false} HistoryCausal(cfg: LimiterCfg, start: int, events: seq<Event>, key: Key)
    requires ValidCfg(cfg) && CausalEvents(start, events)
    ensures Causal(KeyHistory(cfg, start, events, key))
    decreases |events|
  {
    if events != [] {
      var before, e := events[..|events| - 1], events[|events| - 1];
      HistoryCausal(cfg, start, before, key);
      if e.Update? {
        EarlierBelow(start, events);
        HistoryBelow(cfg, start, before, key, e.clock);
      }
    }
  }

  lemma CausalLimiterBound(cfg: LimiterCfg, start: int, events: seq<Event>, key: Key, from: int)
    requires ValidCfg(cfg) && CausalEvents(start, events)
    requires KeyCfg(cfg, key).Some? && KeyCfg(cfg, key).value.period > 0
    ensures var c := KeyCfg(cfg, key).value;
            UnitsIn(AcceptedLog(cfg, start, events, key), from, from + c.period) <= 2 * Max(0, c.limit)
  {
    HistoryCausal(cfg, start, events, key);
    CausalIsForward(KeyCfg(cfg, key).value, KeyHistory(cfg, start, events, key));
    LimiterBound(cfg, start, events, key, from);
  }

  /** Addresses as they come from a parsed client address: always sixteen bytes. */
  predicate ParsedAddresses(events: seq<Event>)
  {
    forall e <- events :: e.Update? ==> |e.addr| == IPV6_BITS
  }

  function WithoutIPv4(cfg: LimiterCfg): (c: LimiterCfg)
  {
    cfg.(perIPv4 := map[])
  }

  /** The tables per IPv4 network make no difference to a sixteen-byte address. */
  lemma IPv4TablesUnused(cfg: LimiterCfg, s: LimiterState, n: int, addr: Address, now: int, clock: int)
    requires ValidCfg(cfg) && ValidState(cfg, s) && |addr| != IPV4_BITS
    ensures var (after, pass) := UpdateState(cfg, s, n, addr, now, clock);
            var (bare, barePass) := UpdateState(WithoutIPv4(cfg), s.(perIPv4 := map[]), n, addr, now, clock);
            after == bare.(perIPv4 := s.perIPv4) && pass == barePass
  {
  }

  lemma {:induction false} IPv4StatesUnused(cfg: LimiterCfg, start: int, events: seq<Event>)
    requires ValidCfg(cfg) && ParsedAddresses(events)
    ensures RunLimiter(cfg, start, events)
         == RunLimiter(WithoutIPv4(cfg), start, events).(perIPv4 := NewState(cfg, start).perIPv4)
    decreases |events|
  {
    if events != [] {
      var before, e := events[..|events| - 1], events[|events| - 1];
      assert e in events;
      IPv4StatesUnused(cfg, start, before);
      IPv4StepUnused(cfg, start, RunLimiter(cfg, start, before), RunLimiter(WithoutIPv4(cfg), start, before), e);
    }
  }

  lemma {:induction false} IPv4StepUnused(cfg: LimiterCfg, start: int, s: LimiterState, bare: LimiterState, e: Event)
    requires ValidCfg(cfg) && ValidState(cfg, s) && ValidState(WithoutIPv4(cfg), bare)
    requires s == bare.(perIPv4 := NewState(cfg, start).perIPv4) && (e.Update? ==> |e.addr| == IPV6_BITS)
    ensures StepLimiter(cfg, s, e) == StepLimiter(WithoutIPv4(cfg), bare, e).(perIPv4 := s.perIPv4)
  {
    assert bare.perIPv4 == map[] && s.(perIPv4 := map[]) == bare;
    if e.Update? {
      IPv4TablesUnused(cfg, s, e.n, e.addr, e.now, e.clock);
    } else {
      assert CollectTables(s.perIPv4) == s.perIPv4;
    }
  }

  /**
    Over every run on parsed addresses, the limits per IPv4 network are never used: their tables stay
    empty, and everything else is as without them, the verdict on any further such address included.
   */
  lemma {:induction false} IPv4LimitsUnused(
    cfg: LimiterCfg, start: int, events: seq<Event>, n: int, addr: Address, now: int, clock: int)
    requires ValidCfg(cfg) && ParsedAddresses(events) && |addr| == IPV6_BITS
    ensures var s, bare := RunLimiter(cfg, start, events), RunLimiter(WithoutIPv4(cfg), start, events);
            && s == bare.(perIPv4 := NewState(cfg, start).perIPv4)
            && (forall p <- s.perIPv4 :: s.perIPv4[p] == map[])
            && UpdateState(cfg, s, n, addr, now, clock).1
               == UpdateState(WithoutIPv4(cfg), bare, n, addr, now, clock).1
  {
    IPv4StatesUnused(cfg, start, events);
    var s := RunLimiter(cfg, start, events);
    assert s.(perIPv4 := map[]) == RunLimiter(WithoutIPv4(cfg), start, events);
    IPv4TablesUnused(cfg, s, n, addr, now, clock);
  }

  /**
    A table per IPv6 network tells IPv4 clients apart exactly when its prefixes are longer than 96
    bits: up to there, all of them share one counter.
   */
  lemma MappedClientsShare(length: nat)
    requires length <= IPV6_BITS
    ensures (forall a, b :: IsMapped(a) && IsMapped(b) ==> a[..length] == b[..length]) <==> length <= MAPPED_BITS
  {
    if length <= MAPPED_BITS {
      forall a: Address, b: Address | IsMapped(a) && IsMapped(b)
        ensures a[..length] == b[..length]
      {
        assert a[..length] == a[..MAPPED_BITS][..length] && b[..length] == b[..MAPPED_BITS][..length];
      }
    } else {
      var a := MappedPrefix() + seq(IPV4_BITS, i => false);
      var b := MappedPrefix() + seq(IPV4_BITS, i => true);
      assert a[..MAPPED_BITS] == MappedPrefix() == b[..MAPPED_BITS];
      assert a[..length][MAPPED_BITS] != b[..length][MAPPED_BITS];
    }
  }

  /** So an update for one IPv4 client reaches the very counters per IPv6 network that any other reaches. */
  lemma MappedClientsTouchAlike(
    cfg: LimiterCfg, s: LimiterState, a: Address, b: Address, p: nat, prefix: Prefix, n: int, now: int)
    requires IsMapped(a) && IsMapped(b) && p <= MAPPED_BITS
    ensures Touches(cfg, s, PerNetwork(IPv6, p, prefix), n, a, now)
            <==> Touches(cfg, s, PerNetwork(IPv6, p, prefix), n, b, now)
    ensures Touches(cfg, s, PerNetwork(IPv6, p, prefix), n, a, now)
            <==> p in cfg.perIPv6 && prefix == MappedPrefix()[..p]
  {
    MappedClientsShare(p);
    assert a[..p] == a[..MAPPED_BITS][..p];
  }
}

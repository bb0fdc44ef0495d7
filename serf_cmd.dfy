/**
 * The `serf` command of the raft module's command line: a table of
 * sub-command plugins, sorted once after injection, searched by name with a
 * lower-bound binary search, and a dispatcher that connects to the Serf
 * (gossip) agent and runs the chosen sub-command.
 *
 * The Serf client and each plugin's own `Run` are outside the model: the
 * dispatcher receives them as two functions, `connect` and `invoke`, that
 * say whether the step failed, and it reports the steps it took as a trace
 * of effects.
 */
module SerfCmd {
  import opened Wrappers
  import opened GoStrings

  /** A sub-command plugin as the dispatcher sees it: `SubCommand()` and `Synopsis()`. */
  datatype Command = Command(name: string, synopsis: string)

  /** What the dispatcher does to the outside world, in order. */
  datatype Effect =
    | PrintHelp
    | Connect(address: string, authKey: string)
    | Invoke(handler: Command, args: seq<string>)
    | Close

  /** The kinds of error `Run` returns; the text of each Go message is not modelled. */
  datatype RunError =
    | UnknownSubCommand(name: string, known: string)
    | ConnectFailed(cause: string)
    | CommandFailed(address: string, cause: string)

  /** The names of a table, in table order. */
  function Names(table: seq<Command>): (r: seq<string>)
    ensures |r| == |table|
    ensures forall k :: 0 <= k < |table| ==> r[k] == table[k].name
  {
    seq(|table|, k requires 0 <= k < |table| => table[k].name)
  }

  /** Ascending by name, as `sort.Slice` with `left < right` leaves the table. */
  ghost predicate Sorted(table: seq<Command>) {
    forall i, j :: 0 <= i < j < |table| ==> LessOrEqual(table[i].name, table[j].name)
  }

  /** Every neighbour pair in order: what an insertion pass maintains. */
  ghost predicate AdjacentSorted(table: seq<Command>) {
    forall k :: 0 < k < |table| ==> LessOrEqual(table[k - 1].name, table[k].name)
  }

  ghost predicate UniqueNames(table: seq<Command>) {
    forall i, j :: 0 <= i < j < |table| ==> table[i].name != table[j].name
  }

  /** Reference lookup: the first entry whose name is exactly `key`. */
  function Lookup(table: seq<Command>, key: string): (r: Option<Command>)
    ensures r.Some? ==> r.value in table && r.value.name == key
    ensures r.None? <==> key !in Names(table)
    decreases |table|
  {
    if |table| == 0 then None
    else if table[0].name == key then Some(table[0])
    else
      var r := Lookup(table[1..], key);
      assert Names(table) == [table[0].name] + Names(table[1..]);
      r
  }

  /** With unique names, the entry named `key` is the one `Lookup` finds. */
  lemma {:induction false} LookupUnique(table: seq<Command>, i: nat)
    requires UniqueNames(table)
    requires i < |table|
    ensures Lookup(table, table[i].name) == Some(table[i])
    decreases |table|
  {
    if i > 0 {
      assert table[0].name != table[i].name;
      LookupUnique(table[1..], i - 1);
    }
  }

  /** The entry at `j`, named `key` with no entry of that name before it, is the one `Lookup` finds. */
  lemma {:induction false} LookupFirst(table: seq<Command>, key: string, j: nat)
    requires j < |table| && table[j].name == key
    requires forall k :: 0 <= k < j ==> table[k].name != key
    ensures Lookup(table, key) == Some(table[j])
    decreases j
  {
    if j > 0 {
      assert table[0].name != key;
      assert forall k :: 0 <= k < j - 1 ==> table[1..][k] == table[k + 1];
      LookupFirst(table[1..], key, j - 1);
    }
  }

  lemma {:induction false} AdjacentSortedIsSorted(table: seq<Command>)
    requires AdjacentSorted(table)
    ensures Sorted(table)
    decreases |table|
  {
    if |table| > 1 {
      AdjacentSortedIsSorted(table[1..]);
      forall j | 0 < j < |table|
        ensures LessOrEqual(table[0].name, table[j].name)
      {
        if j > 1 {
          assert LessOrEqual(table[1].name, table[j].name);
          LessOrEqualTransitive(table[0].name, table[1].name, table[j].name);
        }
      }
    }
  }

  /** `x <= y < z` gives `x < z`. */
  lemma LessOrEqualThenLess(x: string, y: string, z: string)
    requires LessOrEqual(x, y) && Less(y, z)
    ensures Less(x, z)
  {
    LessTotal(x, y);
    if x != y {
      LessTransitive(x, y, z);
    }
  }

  /** Two sorted tables holding the same commands, with unique names, start with the same entry. */
  lemma SortedPermutationsSameHead(a: seq<Command>, b: seq<Command>)
    requires Sorted(a) && Sorted(b) && UniqueNames(a)
    requires multiset(a) == multiset(b)
    requires |a| > 0 && |b| > 0
    ensures a[0] == b[0]
  {
    assert a[0] in multiset(b) && b[0] in multiset(a);
    var i :| 0 <= i < |a| && a[i] == b[0];
    var j :| 0 <= j < |b| && b[j] == a[0];
    assert LessOrEqual(a[0].name, b[0].name) by {
      if i > 0 { assert LessOrEqual(a[0].name, a[i].name); } else { LessIrreflexive(a[0].name); }
    }
    assert LessOrEqual(b[0].name, a[0].name) by {
      if j > 0 { assert LessOrEqual(b[0].name, b[j].name); } else { LessIrreflexive(b[0].name); }
    }
    LessTotal(a[0].name, b[0].name);
  }

  /**
   * Two sorted tables holding the same commands, with unique names, are the
   * same table: sorting fixes the order completely, and sorting a sorted
   * table changes nothing.
   */
  lemma {:induction false} SortedPermutationsEqual(a: seq<Command>, b: seq<Command>)
    requires Sorted(a) && Sorted(b) && UniqueNames(a)
    requires multiset(a) == multiset(b)
    ensures a == b
    decreases |a|
  {
    assert |a| == |multiset(a)| == |multiset(b)| == |b|;
    if |a| > 0 {
      SortedPermutationsSameHead(a, b);
      TailPermutation(a, b);
      TailSorted(a);
      TailSorted(b);
      SortedPermutationsEqual(a[1..], b[1..]);
      assert a == [a[0]] + a[1..] && b == [b[0]] + b[1..];
    }
  }

  /** Dropping the same first entry from two permutations leaves permutations. */
  lemma TailPermutation(a: seq<Command>, b: seq<Command>)
    requires |a| > 0 && |b| > 0 && a[0] == b[0]
    requires multiset(a) == multiset(b)
    ensures multiset(a[1..]) == multiset(b[1..])
  {
    assert a == [a[0]] + a[1..] && b == [b[0]] + b[1..];
    calc {
      multiset(a[1..]);
      multiset(a) - multiset{a[0]};
      multiset(b) - multiset{b[0]};
      multiset(b[1..]);
    }
  }

  /** The tail of a sorted table is sorted, and keeps its names unique. */
  lemma TailSorted(a: seq<Command>)
    requires |a| > 0 && Sorted(a)
    ensures Sorted(a[1..])
    ensures UniqueNames(a) ==> UniqueNames(a[1..])
  {
    var t := a[1..];
    forall p, q | 0 <= p < q < |t| ensures LessOrEqual(t[p].name, t[q].name) {
      assert t[p] == a[p + 1] && t[q] == a[q + 1];
    }
    if UniqueNames(a) {
      forall p, q | 0 <= p < q < |t| ensures t[p].name != t[q].name {
        assert t[p] == a[p + 1] && t[q] == a[q + 1];
      }
    }
  }

  /**
   * `raftcmd/serf_cmd.go`'s `getConnectAddress`: a listen address on every
   * interface (`0.0.0.0:port`) or on a bare port (`:port`) is reached
   * through the loopback address; anything else is used as it is.
   */
  function GetConnectAddress(listenAddr: string): (r: string)
    ensures HasPrefix(r, "127.0.0.1:") || r == listenAddr
  {
    if HasPrefix(listenAddr, "0.0.0.0:") then "127.0.0.1" + listenAddr[7..]
    else if HasPrefix(listenAddr, ":") then "127.0.0.1" + listenAddr
    else listenAddr
  }

  lemma ConnectAddressOfWildcard(port: string)
    ensures GetConnectAddress("0.0.0.0:" + port) == "127.0.0.1:" + port
  {
    var s := "0.0.0.0:" + port;
    assert s[..8] == "0.0.0.0:";
    assert s[7..] == ":" + port;
  }

  lemma ConnectAddressOfBarePort(port: string)
    ensures GetConnectAddress(":" + port) == "127.0.0.1:" + port
  {
    var s := ":" + port;
    assert s[..1] == ":";
    assert !HasPrefix(s, "0.0.0.0:") by {
      assert |s| < 8 || s[0] != "0.0.0.0:"[0];
    }
  }

  lemma ConnectAddressOfOther(listenAddr: string)
    requires !HasPrefix(listenAddr, "0.0.0.0:") && !HasPrefix(listenAddr, ":")
    ensures GetConnectAddress(listenAddr) == listenAddr
  {
  }

  /** Rewriting an address that is already connectable changes nothing. */
  lemma ConnectAddressIdempotent(listenAddr: string)
    ensures GetConnectAddress(GetConnectAddress(listenAddr)) == GetConnectAddress(listenAddr)
  {
    var r := GetConnectAddress(listenAddr);
    if r != listenAddr {
      assert r[0] == '1';
      assert !HasPrefix(r, "0.0.0.0:") by { assert r[..8][0] != "0.0.0.0:"[0]; }
      assert !HasPrefix(r, ":") by { assert r[..1][0] != ':'; }
    }
  }

  /** The default `raft-server.serf-address` needs no rewriting. */
  const DefaultSerfAddress: string := "127.0.0.1:8800"

  lemma DefaultAddressIsConnectable()
    ensures GetConnectAddress(DefaultSerfAddress) == DefaultSerfAddress
  {
    assert !HasPrefix(DefaultSerfAddress, ":") by {
      assert DefaultSerfAddress[..1][0] == '1';
    }
    assert !HasPrefix(DefaultSerfAddress, "0.0.0.0:") by {
      assert DefaultSerfAddress[..8][0] == '1';
    }
  }

  /**
   * `doRun`: connect to the agent at the connectable address, run the
   * handler with the remaining arguments, close the client whatever the
   * handler returned. `connect` and `invoke` give the error text of a
   * failed step, or `None`.
   */
  function DoRun(handler: Command, args: seq<string>, serfAddress: string, serfToken: string,
                 connect: (string, string) -> Option<string>,
                 invoke: (Command, seq<string>) -> Option<string>): (out: (Option<RunError>, seq<Effect>))
    // a failed connection is reported with its cause, and nothing runs after it
    ensures var addr := GetConnectAddress(serfAddress);
      connect(addr, serfToken).Some? ==>
        out == (Some(ConnectFailed(connect(addr, serfToken).value)), [Connect(addr, serfToken)])
    // over an open connection the handler runs once, on exactly these arguments, and the client is closed last
    ensures var addr := GetConnectAddress(serfAddress);
      connect(addr, serfToken).None? ==> out.1 == [Connect(addr, serfToken), Invoke(handler, args), Close]
    // a handler failure is reported with the address and its cause
    ensures var addr := GetConnectAddress(serfAddress);
      connect(addr, serfToken).None? && invoke(handler, args).Some? ==>
        out.0 == Some(CommandFailed(addr, invoke(handler, args).value))
    // success exactly when both steps succeed
    ensures out.0.None? <==>
      connect(GetConnectAddress(serfAddress), serfToken).None? && invoke(handler, args).None?
  {
    var addr := GetConnectAddress(serfAddress);
    match connect(addr, serfToken)
    case Some(cause) => (Some(ConnectFailed(cause)), [Connect(addr, serfToken)])
    case None =>
      var trace := [Connect(addr, serfToken), Invoke(handler, args), Close];
      match invoke(handler, args)
      case Some(cause) => (Some(CommandFailed(addr, cause)), trace)
      case None => (None, trace)
  }

  /**
   * The connection discipline of `doRun`, for every outcome: it starts by
   * connecting, invokes the handler only on its own arguments and only over
   * an open connection, and closes exactly the connections it opened, last.
   */
  lemma DoRunConnectionDiscipline(handler: Command, args: seq<string>, serfAddress: string, serfToken: string,
                                  connect: (string, string) -> Option<string>,
                                  invoke: (Command, seq<string>) -> Option<string>)
    ensures var trace := DoRun(handler, args, serfAddress, serfToken, connect, invoke).1;
      && |trace| >= 1
      && trace[0] == Connect(GetConnectAddress(serfAddress), serfToken)
      && (forall k :: 0 <= k < |trace| && trace[k].Invoke? ==>
            connect(GetConnectAddress(serfAddress), serfToken).None? && trace[k] == Invoke(handler, args))
      && (Close in trace <==> connect(GetConnectAddress(serfAddress), serfToken).None?)
      && (Close in trace ==> trace[|trace| - 1] == Close)
  {
  }

  /**
   * The `serf` command object. `commands` is the injected `SerfCommands`
   * slice; `serfAddress` and `serfToken` are the configured
   * `raft-server.serf-address` and `raft-server.serf-auth` values.
   */
  class SerfCommand {
    const commands: array<Command>
    const serfAddress: string
    const serfToken: string

    /** Injection: the table in the order the container supplies it. */
    constructor (injected: seq<Command>, address: string, token: string)
      ensures fresh(commands) && commands[..] == injected
      ensures serfAddress == address && serfToken == token
    {
      commands := new Command[|injected|](k requires 0 <= k < |injected| => injected[k]);
      serfAddress := address;
      serfToken := token;
    }

    /** `PostConstruct`: sort the table in place by name. */
    method PostConstruct()
      modifies commands
      ensures Sorted(commands[..])
      ensures multiset(commands[..]) == multiset(old(commands[..]))
    {
      var n := commands.Length;
      var i := 0;
      while i < n
        invariant 0 <= i <= n
        invariant AdjacentSorted(commands[..i])
        invariant multiset(commands[..]) == multiset(old(commands[..]))
      {
        InsertAt(i);
        i := i + 1;
      }
      assert commands[..] == commands[..n];
      AdjacentSortedIsSorted(commands[..]);
    }

    /** One insertion pass: move `commands[i]` left until the first `i + 1` entries are in order. */
    method InsertAt(i: nat)
      requires i < commands.Length
      requires AdjacentSorted(commands[..i])
      modifies commands
      ensures AdjacentSorted(commands[..i + 1])
      ensures multiset(commands[..]) == multiset(old(commands[..]))
      ensures commands[i + 1..] == old(commands[i + 1..])
    {
      var j := i;
      while j > 0 && Less(commands[j].name, commands[j - 1].name)
        invariant 0 <= j <= i
        invariant forall k :: 0 < k <= i && k != j ==> LessOrEqual(commands[k - 1].name, commands[k].name)
        invariant 0 < j < i ==> LessOrEqual(commands[j - 1].name, commands[j + 1].name)
        invariant multiset(commands[..]) == multiset(old(commands[..]))
        invariant commands[i + 1..] == old(commands[i + 1..])
      {
        LessAsymmetric(commands[j].name, commands[j - 1].name);
        Swap(j - 1, j);
        j := j - 1;
      }
    }

    /** Exchange two entries of the table. */
    method Swap(p: nat, q: nat)
      requires p < q < commands.Length
      modifies commands
      ensures commands[p] == old(commands[q]) && commands[q] == old(commands[p])
      ensures forall k :: 0 <= k < commands.Length && k != p && k != q ==> commands[k] == old(commands[k])
      ensures multiset(commands[..]) == multiset(old(commands[..]))
    {
      commands[p], commands[q] := commands[q], commands[p];
    }

    /**
     * The `sort.Search` call in `findCommand`: the least index whose name is
     * `>= key`, found by halving `[lo, hi)`. Its two neighbours are always
     * on the right sides of `key`; on a sorted table so is every entry.
     */
    method SearchIndex(key: string) returns (i: nat)
      ensures i <= commands.Length
      ensures i > 0 ==> Less(commands[i - 1].name, key)
      ensures i < commands.Length ==> !Less(commands[i].name, key)
      ensures Sorted(commands[..]) ==>
        (forall k :: 0 <= k < i ==> Less(commands[k].name, key)) &&
        (forall k :: i <= k < commands.Length ==> !Less(commands[k].name, key))
    {
      var lo, hi := 0, commands.Length;
      while lo < hi
        invariant 0 <= lo <= hi <= commands.Length
        invariant lo > 0 ==> Less(commands[lo - 1].name, key)
        invariant hi < commands.Length ==> !Less(commands[hi].name, key)
      {
        var h := (lo + hi) / 2;
        if Less(commands[h].name, key) {
          lo := h + 1;
        } else {
          hi := h;
        }
      }
      i := lo;
      if Sorted(commands[..]) {
        forall k | 0 <= k < i
          ensures Less(commands[k].name, key)
        {
          if k < i - 1 {
            assert LessOrEqual(commands[..][k].name, commands[..][i - 1].name);
            LessOrEqualThenLess(commands[k].name, commands[i - 1].name, key);
          }
        }
        forall k | i <= k < commands.Length
          ensures !Less(commands[k].name, key)
        {
          if k > i && Less(commands[k].name, key) {
            assert LessOrEqual(commands[..][i].name, commands[..][k].name);
            LessOrEqualThenLess(commands[i].name, commands[k].name, key);
          }
        }
      }
    }

    /**
     * `findCommand`: an entry it returns is named exactly `key`; on a sorted
     * table it finds every name present, and with unique names it returns
     * the one entry of that name.
     */
    method FindCommand(key: string) returns (r: Option<Command>)
      ensures r.Some? ==> r.value in commands[..] && r.value.name == key
      ensures Sorted(commands[..]) ==> (r.Some? <==> key in Names(commands[..]))
      ensures Sorted(commands[..]) ==> r == Lookup(commands[..], key)
    {
      var n := commands.Length;
      var i := SearchIndex(key);
      if i == n {
        r := None;
      } else if commands[i].name == key {
        r := Some(commands[i]);
      } else {
        r := None;
      }
      if Sorted(commands[..]) {
        if key in Names(commands[..]) {
          var k :| 0 <= k < n && commands[k].name == key;
          LessIrreflexive(key);
          assert i <= k;
          assert LessOrEqual(commands[i].name, key) by {
            if i < k { assert LessOrEqual(commands[..][i].name, commands[..][k].name); }
          }
          LessTotal(commands[i].name, key);
        }
        if r.Some? {
          forall k | 0 <= k < i ensures commands[..][k].name != key {
            LessIrreflexive(key);
          }
          LookupFirst(commands[..], key, i);
        }
      }
    }

    /** `subCommands`: the table's names in table order, comma separated. */
    method SubCommands() returns (s: string)
      ensures s == Join(Names(commands[..]), ",")
      ensures commands.Length > 0 && (forall k :: 0 <= k < commands.Length ==> ',' !in commands[k].name)
        ==> Split(s, ',') == Names(commands[..])
    {
      var sub: seq<string> := [];
      for i := 0 to commands.Length
        invariant sub == Names(commands[..i])
      {
        sub := sub + [commands[i].name];
      }
      assert commands[..] == commands[..commands.Length];
      s := Join(sub, ",");
      if commands.Length > 0 && (forall k :: 0 <= k < commands.Length ==> ',' !in commands[k].name) {
        SplitJoin(sub, ',');
      }
    }

    /** `Synopsis`: the one-line description naming every sub-command. */
    method Synopsis() returns (s: string)
      ensures s == "serf commands [" + Join(Names(commands[..]), ",") + "]"
    {
      var names := SubCommands();
      s := "serf commands [" + names + "]";
    }

    /**
     * `Run`: no arguments shows the help and succeeds; otherwise the first
     * argument names the sub-command and the rest are its arguments. An
     * unknown name fails before any connection is attempted.
     */
    method Run(args: seq<string>,
               connect: (string, string) -> Option<string>,
               invoke: (Command, seq<string>) -> Option<string>)
      returns (err: Option<RunError>, trace: seq<Effect>)
      requires Sorted(commands[..])
      ensures args == [] ==> err == None && trace == [PrintHelp]
      ensures args != [] && args[0] !in Names(commands[..]) ==>
        err == Some(UnknownSubCommand(args[0], Join(Names(commands[..]), ","))) && trace == []
      ensures args != [] && args[0] in Names(commands[..]) ==>
        exists handler :: handler in commands[..] && handler.name == args[0] &&
          (err, trace) == DoRun(handler, args[1..], serfAddress, serfToken, connect, invoke)
      ensures args != [] && Lookup(commands[..], args[0]).Some? ==>
        (err, trace) == DoRun(Lookup(commands[..], args[0]).value, args[1..], serfAddress, serfToken,
                              connect, invoke)
    {
      if |args| == 0 {
        return None, [PrintHelp];
      }
      var cmd := args[0];
      var rest := args[1..];
      var handler := FindCommand(cmd);
      if handler.Some? {
        var out := DoRun(handler.value, rest, serfAddress, serfToken, connect, invoke);
        err, trace := out.0, out.1;
      } else {
        var known := SubCommands();
        err, trace := Some(UnknownSubCommand(cmd, known)), [];
      }
    }
  }

  /** The plugins of the end-to-end scenario, in name order. */
  const ScenarioTable: seq<Command> := [
    Command("join", "Join the cluster"),
    Command("leave", "Leave the cluster"),
    Command("members", "List members")
  ]

  /** The scenario table is sorted by name, and its names are unique. */
  lemma ScenarioTableSorted()
    ensures Sorted(ScenarioTable) && UniqueNames(ScenarioTable)
  {
    assert Less("join", "leave") && Less("leave", "members");
    LessTransitive("join", "leave", "members");
    LessAsymmetric("join", "leave");
    LessAsymmetric("leave", "members");
    LessAsymmetric("join", "members");
  }

  /** Every sorted order of the scenario's plugins is the scenario table. */
  lemma ScenarioTableIsTheSortedOrder(t: seq<Command>)
    requires Sorted(t) && multiset(t) == multiset(ScenarioTable)
    ensures t == ScenarioTable
  {
    ScenarioTableSorted();
    SortedPermutationsEqual(ScenarioTable, t);
  }

  /**
   * The end-to-end scenario: three plugins injected as `leave, members, join`,
   * sorted by `PostConstruct`, then looked up.
   */
  method SortThenFindExample() returns (serf: SerfCommand, found: Option<Command>, missing: Option<Command>)
    ensures serf.commands[..] == ScenarioTable
    ensures found == Some(ScenarioTable[2]) && missing == None
  {
    serf := new SerfCommand([ScenarioTable[1], ScenarioTable[2], ScenarioTable[0]], DefaultSerfAddress, "");
    assert multiset(serf.commands[..]) == multiset(ScenarioTable);
    serf.PostConstruct();
    ScenarioTableIsTheSortedOrder(serf.commands[..]);
    found, missing := FindInScenario(serf);
  }

  /** Looking up one present and one absent name in the sorted scenario table. */
  method FindInScenario(serf: SerfCommand) returns (found: Option<Command>, missing: Option<Command>)
    requires serf.commands[..] == ScenarioTable
    ensures found == Some(ScenarioTable[2]) && found.value.name == "members"
    ensures missing == None
  {
    ScenarioTableSorted();
    assert Names(serf.commands[..]) == ["join", "leave", "members"];
    found := serf.FindCommand("members");
    assert found.Some?;
    assert found.value == ScenarioTable[2];
    missing := serf.FindCommand("evict");
  }
}

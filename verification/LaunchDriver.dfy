/**
 The premine launch protocol: the command-line scan that finds the first handle still to be done,
 and the driver that answers its prompt batch by batch while reorganizations may undo progress.
 */
module LaunchDriver {
  import opened Common
  import opened Arithmetic

  datatype Row = Row(handle: string, recipient: string, expiration: string)

  ghost predicate Distinct(rows: seq<Row>) {
    forall i, j :: 0 <= i < j < |rows| ==> rows[i].handle != rows[j].handle
  }

  // ---------------------------------------------------------------------------------
  // The command line
  // ---------------------------------------------------------------------------------

  /** First position, walking with the skip, at which nothing is found; may lie past the end. */
  function ScanFrom(present: seq<bool>, i: nat, skip: nat): nat
    decreases |present| - i
  {
    if i >= |present| || !present[i] then i
    else if i == 0 && skip > 1 then ScanFrom(present, skip, skip)
    else ScanFrom(present, i + 1, skip)
  }

  method Scan(present: seq<bool>, skip: nat) returns (i: nat)
    ensures i == ScanFrom(present, 0, skip)
  {
    i := 0;
    while i < |present|
      invariant ScanFrom(present, 0, skip) == ScanFrom(present, i, skip)
      decreases |present| - i
    {
      if !present[i] {
        break;
      }
      if i == 0 && skip > 1 {
        i := skip;
      } else {
        i := i + 1;
      }
    }
  }

  function Batch(rows: seq<Row>, start: nat, size: nat): seq<Row> {
    if start >= |rows| then []
    else if start + size >= |rows| then rows[start..] else rows[start..start + size]
  }

  method SelectBatch(rows: seq<Row>, start: nat, size: nat) returns (batch: seq<Row>)
    ensures batch == Batch(rows, start, size)
  {
    batch := [];
    var i := start;
    while i < |rows| && |batch| < size
      invariant start <= i && i == start + |batch| && |batch| <= size
      invariant i <= |rows| || batch == []
      invariant i <= |rows| ==> batch == rows[start..i]
    {
      batch := batch + [rows[i]];
      i := i + 1;
    }
  }

  /**
   Handles registered and handles with an unspent eve NFT: on-chain progress of the two phases, each a
   prefix of the rows.
   */
  datatype Chain = Chain(registered: nat, precommitted: nat)

  ghost predicate OnChain(c: Chain, n: nat) {
    c.registered <= n && c.precommitted <= n
  }

  function Prefix(n: nat, p: nat): seq<bool> {
    seq(n, i => i < p)
  }

  datatype Cli = AlreadyDone | Prompt(printed: seq<Row>)

  /** What the command prints before its prompt: precommits first while nothing is registered. */
  function CliRun(rows: seq<Row>, skip: nat, size: nat, c: Chain): Cli {
    var i := ScanFrom(Prefix(|rows|, c.registered), 0, skip);
    if i == |rows| then AlreadyDone
    else
      var j := ScanFrom(Prefix(|rows|, c.precommitted), 0, skip);
      if i == 0 && j != |rows| then Prompt(Batch(rows, j, size)) else Prompt(Batch(rows, i, size))
  }

  method RunCli(rows: seq<Row>, skip: nat, size: nat, c: Chain) returns (out: Cli)
    ensures out == CliRun(rows, skip, size, c)
  {
    var i := Scan(Prefix(|rows|, c.registered), skip);
    if i == |rows| {
      return AlreadyDone;
    }
    if i == 0 {
      var j := Scan(Prefix(|rows|, c.precommitted), skip);
      if j != |rows| {
        var early := SelectBatch(rows, j, size);
        return Prompt(early);
      }
    }
    var batch := SelectBatch(rows, i, size);
    return Prompt(batch);
  }

  /** The true frontier of the phase the chain is in: first row to precommit, or first row to register. */
  function Frontier(n: nat, c: Chain): nat {
    if c.registered == 0 && c.precommitted < n then c.precommitted else c.registered
  }

  // ---------------------------------------------------------------------------------
  // What the skip-one-behind scan shows
  // ---------------------------------------------------------------------------------

  function SafeSkip(logical: nat): nat {
    SatSub(logical, 1)
  }

  lemma {:induction false} ScanPrefix(n: nat, p: nat, i: nat, skip: nat)
    requires p <= n && 0 < i
    ensures ScanFrom(Prefix(n, p), i, skip) == (if i < p then p else i)
    decreases n - i
  {
    if i < p {
      ScanPrefix(n, p, i + 1, skip);
    }
  }

  /** The scan of a prefix finds its end, unless the jump lands beyond it. */
  lemma ScanIs(n: nat, p: nat, skip: nat)
    requires p <= n
    ensures ScanFrom(Prefix(n, p), 0, skip) == (if p > 0 && 1 < skip && p < skip then skip else p)
  {
    if p > 0 {
      ScanPrefix(n, p, if skip > 1 then skip else 1, skip);
    }
  }

  lemma BatchesDiffer(rows: seq<Row>, a: nat, b: nat, size: nat)
    requires Distinct(rows) && a < |rows| && b < |rows| && size > 0
    ensures Batch(rows, a, size) != [] && Batch(rows, a, size)[0] == rows[a]
    ensures Batch(rows, a, size) == Batch(rows, b, size) <==> a == b
  {
    assert Batch(rows, b, size)[0] == rows[b];
  }

  function CsvIndex(rows: seq<Row>, handle: string): nat {
    if rows == [] || rows[0].handle == handle then 0 else 1 + CsvIndex(rows[1..], handle)
  }

  lemma {:induction false} CsvIndexOf(rows: seq<Row>, k: nat)
    requires Distinct(rows) && k < |rows|
    ensures CsvIndex(rows, rows[k].handle) == k
  {
    if k > 0 {
      assert rows[1..][k - 1] == rows[k];
      assert forall i :: 0 <= i < |rows[1..]| ==> rows[1..][i] == rows[i + 1];
      CsvIndexOf(rows[1..], k - 1);
    }
  }

  method IndexInCsv(rows: seq<Row>, handle: string) returns (index: Option<nat>)
    ensures index == if CsvIndex(rows, handle) < |rows| then Some(CsvIndex(rows, handle)) else None
  {
    for i := 0 to |rows|
      invariant CsvIndex(rows, handle) == i + CsvIndex(rows[i..], handle)
    {
      assert rows[i..][1..] == rows[i + 1..];
      if rows[i].handle == handle {
        return Some(i);
      }
    }
    return None;
  }

  ghost predicate StartsEarlier(rows: seq<Row>, printed: seq<Row>, logical: nat) {
    printed != [] && CsvIndex(rows, printed[0].handle) < |rows| && CsvIndex(rows, printed[0].handle) < logical
  }

  /**
   The scan sent one handle behind decides everything the driver needs. The printed batch is the
   expected one exactly when the chain's frontier is the driver's position; a frontier that was
   truncated, however deep, shows as an earlier list, and a later frontier shows as neither.
   */
  lemma PromptShowsFrontier(rows: seq<Row>, logical: nat, size: nat, c: Chain)
    requires Distinct(rows) && logical < |rows| && size > 0 && OnChain(c, |rows|)
    ensures
      var f := Frontier(|rows|, c);
      match CliRun(rows, SafeSkip(logical), size, c)
      case AlreadyDone => c.registered == |rows|
      case Prompt(printed) =>
        && c.registered < |rows|
        && (printed == Batch(rows, logical, size) <==> f == logical)
        && (StartsEarlier(rows, printed, logical) <==> f < logical)
  {
    var n, s, f := |rows|, SafeSkip(logical), Frontier(|rows|, c);
    ScanIs(n, c.registered, s);
    ScanIs(n, c.precommitted, s);
    var shown := if f > 0 && 1 < s && f < s then s else f;
    if c.registered < n {
      assert CliRun(rows, s, size, c) == Prompt(Batch(rows, shown, size));
      BatchesDiffer(rows, shown, logical, size);
      CsvIndexOf(rows, shown);
    }
  }

  // ---------------------------------------------------------------------------------
  // The driver
  // ---------------------------------------------------------------------------------

  datatype Push = Confirmed | DoubleSpend | Rejected

  /**
   What the environment does in one attempt: the chain the command sees, whether it fails on its own,
   and the fate of a push.
   */
  datatype Attempt = Attempt(chain: Chain, fails: bool, push: Push)

  datatype Status = Ok | Done | Earlier | Retry | Exit

  /** The driver's verdict on one run of the command, and whether it answered yes. */
  function Verdict(rows: seq<Row>, logical: nat, size: nat, a: Attempt): (Status, bool) {
    if a.fails then (Exit, false)
    else
      match CliRun(rows, SafeSkip(logical), size, a.chain)
      case AlreadyDone => (Done, false)
      case Prompt(printed) =>
        if printed != Batch(rows, logical, size) then
          (if printed != [] && CsvIndex(rows, printed[0].handle) < |rows|
              && CsvIndex(rows, printed[0].handle) < logical then Earlier else Exit, false)
        else (match a.push case Confirmed => Ok case DoubleSpend => Retry case Rejected => Exit, true)
  }

  method RunOne(rows: seq<Row>, expected: seq<Row>, logical: nat, safeSkip: nat, size: nat, a: Attempt)
    returns (status: Status, saidYes: bool)
    requires expected == Batch(rows, logical, size) && safeSkip == SafeSkip(logical)
    ensures (status, saidYes) == Verdict(rows, logical, size, a)
  {
    if a.fails {
      return Exit, false;
    }
    var out := RunCli(rows, safeSkip, size, a.chain);
    if out.AlreadyDone? {
      return Done, false;
    }
    var printed := out.printed;
    if printed != expected {
      if printed != [] {
        var index := IndexInCsv(rows, printed[0].handle);
        if index.Some? && index.value < logical {
          return Earlier, false;
        }
      }
      return Exit, false;
    }
    match a.push {
      case Confirmed => return Ok, true;
      case DoubleSpend => return Retry, true;
      case Rejected => return Exit, true;
    }
  }

  /** Waits scheduled for an earlier list before the driver gives up on the batch. */
  const EARLIER_RETRIES: nat := 2

  /** The verdicts a sequence of attempts would get, one by one. */
  function Verdicts(rows: seq<Row>, logical: nat, size: nat, env: seq<Attempt>): seq<Status> {
    seq(|env|, i requires 0 <= i < |env| => Verdict(rows, logical, size, env[i]).0)
  }

  datatype Settled = Settled(status: Status, used: nat)

  /** The first attempt that settles a batch, counted in attempts; a third earlier list ends in an exit. */
  function Settle(vs: seq<Status>, earlier: nat): (r: Settled)
    ensures r.used <= |vs|
  {
    if vs == [] then Settled(Exit, 0)
    else if vs[0] == Retry then Later(Settle(vs[1..], earlier))
    else if vs[0] != Earlier then Settled(vs[0], 1)
    else if earlier >= EARLIER_RETRIES then Settled(Exit, 1)
    else Later(Settle(vs[1..], earlier + 1))
  }

  function Later(r: Settled): Settled {
    r.(used := r.used + 1)
  }

  method RunOneWithRetries(rows: seq<Row>, expected: seq<Row>, logical: nat, safeSkip: nat, size: nat,
                           env: seq<Attempt>)
    returns (status: Status, used: nat)
    requires expected == Batch(rows, logical, size) && safeSkip == SafeSkip(logical)
    ensures Settled(status, used) == Settle(Verdicts(rows, logical, size, env), 0)
  {
    ghost var vs := Verdicts(rows, logical, size, env);
    var earlierAttempt := 0;
    used := 0;
    while used < |env|
      invariant used <= |env|
      invariant Settle(vs, 0).status == Settle(vs[used..], earlierAttempt).status
      invariant Settle(vs, 0).used == used + Settle(vs[used..], earlierAttempt).used
    {
      assert vs[used..][1..] == vs[used + 1..];
      var saidYes;
      status, saidYes := RunOne(rows, expected, logical, safeSkip, size, env[used]);
      assert status == vs[used];
      used := used + 1;
      if status == Retry {
        continue;
      }
      if status != Earlier {
        return;
      }
      if earlierAttempt >= EARLIER_RETRIES {
        return Exit, used;
      }
      earlierAttempt := earlierAttempt + 1;
    }
    return Exit, used;
  }

  /** The attempt that settles a batch is the one whose verdict is reported, unless the driver gives up. */
  lemma {:induction false} SettleReportsLast(vs: seq<Status>, earlier: nat)
    requires Settle(vs, earlier).status != Exit
    ensures 0 < Settle(vs, earlier).used && vs[Settle(vs, earlier).used - 1] == Settle(vs, earlier).status
    ensures Settle(vs, earlier).status != Earlier && Settle(vs, earlier).status != Retry
    decreases |vs|
  {
    if vs[0] == Retry {
      SettleReportsLast(vs[1..], earlier);
    } else if vs[0] == Earlier {
      SettleReportsLast(vs[1..], earlier + 1);
    }
  }

  function BatchCount(total: nat, start: nat, size: nat): nat
    requires size > 0
  {
    if start >= total then 0 else (total - start + size - 1) / size
  }

  /** A spend the driver confirmed: the chain it was built on and the rows it covered. */
  datatype Confirmation = Confirmation(chain: Chain, batch: seq<Row>)

  function Concat(cs: seq<Confirmation>): seq<Row> {
    if cs == [] then [] else Concat(cs[..|cs| - 1]) + cs[|cs| - 1].batch
  }

  /** The driver answers yes exactly when the command prompts at the true frontier, and that is its own position. */
  lemma YesIffAtFrontier(rows: seq<Row>, logical: nat, size: nat, a: Attempt)
    requires Distinct(rows) && logical < |rows| && size > 0 && OnChain(a.chain, |rows|)
    ensures Verdict(rows, logical, size, a).1 <==>
              !a.fails && a.chain.registered < |rows| && Frontier(|rows|, a.chain) == logical
    ensures Verdict(rows, logical, size, a).0 == Earlier <==>
              !a.fails && a.chain.registered < |rows| && Frontier(|rows|, a.chain) < logical
  {
    PromptShowsFrontier(rows, logical, size, a.chain);
  }

  /** Every verdict, by what the chain holds and what became of the push. */
  lemma VerdictIff(rows: seq<Row>, logical: nat, size: nat, a: Attempt)
    requires Distinct(rows) && logical < |rows| && size > 0 && OnChain(a.chain, |rows|)
    ensures
      var (status, yes) := Verdict(rows, logical, size, a);
      && (status == Done <==> !a.fails && a.chain.registered == |rows|)
      && (status == Ok <==> yes && a.push == Confirmed)
      && (status == Retry <==> yes && a.push == DoubleSpend)
      && (status == Exit <==>
            || a.fails || (yes && a.push == Rejected)
            || (a.chain.registered < |rows| && logical < Frontier(|rows|, a.chain)))
  {
    PromptShowsFrontier(rows, logical, size, a.chain);
  }

  /** Over a deeper truncation the command shows the row one behind the driver's position, wherever the frontier is. */
  lemma DeepTruncationShowsOneBehind(rows: seq<Row>, logical: nat, size: nat, c: Chain)
    requires logical < |rows| && OnChain(c, |rows|) && 0 < c.registered
    requires Frontier(|rows|, c) < logical - 1
    ensures CliRun(rows, SafeSkip(logical), size, c) == Prompt(Batch(rows, logical - 1, size))
  {
    ScanIs(|rows|, c.registered, logical - 1);
  }

  /** A verdict the driver waits on: a double spend always, an earlier list only twice. */
  ghost predicate Waits(vs: seq<Status>, i: nat)
    requires i < |vs|
  {
    vs[i] == Retry || (vs[i] == Earlier && EarliersBefore(vs, i) < 2)
  }

  function EarliersBefore(vs: seq<Status>, i: nat): nat
    requires i <= |vs|
  {
    if i == 0 then 0 else EarliersBefore(vs, i - 1) + if vs[i - 1] == Earlier then 1 else 0
  }

  /** The batch is settled by the first verdict the driver does not wait on; a third earlier list is an exit. */
  lemma SettlesAtFirst(vs: seq<Status>, k: nat)
    requires k < |vs| && !Waits(vs, k) && forall i :: 0 <= i < k ==> Waits(vs, i)
    ensures Settle(vs, 0) == Settled(if vs[k] == Earlier then Exit else vs[k], k + 1)
  {
    assert vs[0..] == vs;
    SettleFrom(vs, 0, k);
  }

  lemma {:induction false} SettleFrom(vs: seq<Status>, i: nat, k: nat)
    requires i <= k < |vs| && !Waits(vs, k) && forall j :: 0 <= j < k ==> Waits(vs, j)
    ensures Settle(vs[i..], EarliersBefore(vs, i)) == Settled(if vs[k] == Earlier then Exit else vs[k], k + 1 - i)
    decreases k - i
  {
    assert vs[i..][0] == vs[i] && vs[i..][1..] == vs[i + 1..];
    if i < k {
      assert Waits(vs, i);
      SettleFrom(vs, i + 1, k);
    }
  }

  /** When the driver waits on all of them, the attempts run out. */
  lemma {:induction false} NothingSettles(vs: seq<Status>, i: nat)
    requires i <= |vs| && forall j :: 0 <= j < |vs| ==> Waits(vs, j)
    ensures Settle(vs[i..], EarliersBefore(vs, i)) == Settled(Exit, |vs| - i)
    decreases |vs| - i
  {
    if i < |vs| {
      assert vs[i..][0] == vs[i] && vs[i..][1..] == vs[i + 1..];
      assert Waits(vs, i);
      NothingSettles(vs, i + 1);
    }
  }

  /** A settled batch was confirmed on a chain whose frontier it starts at. */
  lemma SettledAtFrontier(rows: seq<Row>, logical: nat, size: nat, env: seq<Attempt>)
    requires Distinct(rows) && logical < |rows| && size > 0
    requires AllOnChain(env, |rows|)
    requires Settle(Verdicts(rows, logical, size, env), 0).status == Ok
    ensures
      var k := Settle(Verdicts(rows, logical, size, env), 0).used;
      && 0 < k && Frontier(|rows|, env[k - 1].chain) == logical
      && Verdict(rows, logical, size, env[k - 1]) == (Ok, true)
  {
    var vs := Verdicts(rows, logical, size, env);
    SettleReportsLast(vs, 0);
    var a := env[Settle(vs, 0).used - 1];
    assert OnChain(a.chain, |rows|);
    OkAtFrontier(rows, logical, size, a);
  }

  lemma OkAtFrontier(rows: seq<Row>, logical: nat, size: nat, a: Attempt)
    requires Distinct(rows) && logical < |rows| && size > 0 && OnChain(a.chain, |rows|)
    requires Verdict(rows, logical, size, a).0 == Ok
    ensures Frontier(|rows|, a.chain) == logical && Verdict(rows, logical, size, a) == (Ok, true)
  {
    OkMeansYes(rows, logical, size, a);
    YesIffAtFrontier(rows, logical, size, a);
  }

  lemma OkMeansYes(rows: seq<Row>, logical: nat, size: nat, a: Attempt)
    requires Verdict(rows, logical, size, a).0 == Ok
    ensures Verdict(rows, logical, size, a).1 && a.push == Confirmed
  {
  }

  /** Each confirmed spend covers its own stretch of rows, built on a chain whose frontier is where it starts. */
  ghost predicate Covers(rows: seq<Row>, skip: nat, size: nat, confirmed: seq<Confirmation>) {
    forall i :: 0 <= i < |confirmed| ==> CoversAt(rows, StartOf(skip, size, i), size, confirmed[i])
  }

  /** Row at which the batch of a given number starts. */
  function StartOf(skip: nat, size: nat, i: nat): nat {
    skip + i * size
  }

  ghost predicate CoversAt(rows: seq<Row>, start: nat, size: nat, c: Confirmation) {
    c.batch == Batch(rows, start, size) && Frontier(|rows|, c.chain) == start < |rows|
  }

  function UpTo(rows: seq<Row>, start: nat, end: nat): seq<Row>
    requires start <= |rows| && start <= end
  {
    if end < |rows| then rows[start..end] else rows[start..]
  }

  lemma NextStart(skip: nat, size: nat, i: nat)
    ensures StartOf(skip, size, i + 1) == StartOf(skip, size, i) + size
  {
  }

  lemma UpToNext(rows: seq<Row>, skip: nat, at: nat, size: nat)
    requires skip <= at < |rows|
    ensures UpTo(rows, skip, at + size) == UpTo(rows, skip, at) + Batch(rows, at, size)
  {
  }

  lemma ConcatNext(cs: seq<Confirmation>, c: Confirmation)
    ensures Concat(cs + [c]) == Concat(cs) + c.batch
  {
    assert (cs + [c])[..|cs|] == cs;
  }

  /** Where a pass stands: everything between its start and the current row is confirmed. */
  ghost predicate Passed(rows: seq<Row>, skip: nat, size: nat, at: nat, confirmed: seq<Confirmation>) {
    && skip <= at == StartOf(skip, size, |confirmed|) && skip <= |rows|
    && Covers(rows, skip, size, confirmed)
    && Concat(confirmed) == UpTo(rows, skip, at)
  }

  lemma CoversNext(rows: seq<Row>, skip: nat, size: nat, confirmed: seq<Confirmation>, c: Confirmation)
    requires Covers(rows, skip, size, confirmed) && CoversAt(rows, StartOf(skip, size, |confirmed|), size, c)
    ensures Covers(rows, skip, size, confirmed + [c])
  {
  }

  lemma PassAdvances(rows: seq<Row>, skip: nat, size: nat, at: nat, confirmed: seq<Confirmation>, c: Confirmation)
    requires Passed(rows, skip, size, at, confirmed) && at < |rows| && CoversAt(rows, at, size, c)
    ensures Passed(rows, skip, size, at + size, confirmed + [c])
  {
    CoversNext(rows, skip, size, confirmed, c);
    NextStart(skip, size, |confirmed|);
    UpToNext(rows, skip, at, size);
    ConcatNext(confirmed, c);
  }

  ghost predicate AllOnChain(env: seq<Attempt>, n: nat) {
    forall i :: 0 <= i < |env| ==> OnChain(env[i].chain, n)
  }

  /** A chain on which the command registers: something is registered already, or everything is precommitted. */
  predicate Registers(n: nat, c: Chain) {
    c.registered > 0 || c.precommitted >= n
  }

  ghost predicate AllRegister(env: seq<Attempt>, n: nat) {
    forall i :: 0 <= i < |env| ==> Registers(n, env[i].chain)
  }

  ghost predicate OnlyRegistrations(confirmed: seq<Confirmation>, n: nat) {
    forall i :: 0 <= i < |confirmed| ==> Registers(n, confirmed[i].chain)
  }

  ghost predicate OfChains(env: seq<Attempt>, n: nat, registers: bool) {
    AllOnChain(env, n) && (registers ==> AllRegister(env, n))
  }

  ghost predicate Registered(confirmed: seq<Confirmation>, n: nat, registers: bool) {
    registers ==> OnlyRegistrations(confirmed, n)
  }

  lemma RestOfChains(env: seq<Attempt>, n: nat, registers: bool, used: nat)
    requires OfChains(env, n, registers) && used <= |env|
    ensures OfChains(env[used..], n, registers)
  {
  }

  lemma RegisteredNext(confirmed: seq<Confirmation>, c: Confirmation, n: nat, registers: bool)
    requires Registered(confirmed, n, registers) && (registers ==> Registers(n, c.chain))
    ensures Registered(confirmed + [c], n, registers)
  {
  }

  /** One batch of a pass, with the confirmation that settled it. */
  method RunBatch(rows: seq<Row>, at: nat, size: nat, env: seq<Attempt>)
    returns (status: Status, c: Confirmation, used: nat)
    requires Distinct(rows) && size > 0 && at < |rows| && AllOnChain(env, |rows|)
    ensures used <= |env|
    ensures status == Ok ==> CoversAt(rows, at, size, c)
    ensures status == Ok && AllRegister(env, |rows|) ==> Registers(|rows|, c.chain)
  {
    var expected := Batch(rows, at, size);
    c := Confirmation(Chain(0, 0), expected);
    status, used := RunOneWithRetries(rows, expected, at, SafeSkip(at), size, env);
    if status == Ok {
      SettledAtFrontier(rows, at, size, env);
      c := Confirmation(env[used - 1].chain, expected);
    }
  }

  /**
   One pass over the rows from `skip`: the outcome, and every spend it confirmed, in order. They are
   registrations if every chain the command saw was one to register on; a pass started before that
   confirms precommitments just as well.
   */
  method RunPass(rows: seq<Row>, skip: nat, size: nat, env: seq<Attempt>)
    returns (status: Status, confirmed: seq<Confirmation>)
    requires Distinct(rows) && size > 0
    requires AllOnChain(env, |rows|)
    ensures status == Ok || status == Done || status == Exit
    ensures Covers(rows, skip, size, confirmed)
    ensures skip <= |rows| ==> Concat(confirmed) == UpTo(rows, skip, StartOf(skip, size, |confirmed|))
    ensures status == Ok ==> |confirmed| == BatchCount(|rows|, skip, size)
    ensures status == Ok && skip <= |rows| ==> Concat(confirmed) == rows[skip..]
    ensures AllRegister(env, |rows|) ==> OnlyRegistrations(confirmed, |rows|)
  {
    confirmed := [];
    var at, rest := skip, env;
    ghost var registers := AllRegister(env, |rows|);
    CountIsZero(|rows|, skip, size);
    if BatchCount(|rows|, skip, size) == 0 {
      return Ok, [];
    }
    while at < |rows|
      invariant skip < |rows| && at < |rows| + size
      invariant OfChains(rest, |rows|, registers)
      invariant Passed(rows, skip, size, at, confirmed) && Registered(confirmed, |rows|, registers)
      decreases |rows| + size - at
    {
      var c, used;
      status, c, used := RunBatch(rows, at, size, rest);
      if status == Done {
        return;
      }
      if status != Ok {
        return Exit, confirmed;
      }
      PassAdvances(rows, skip, size, at, confirmed, c);
      RestOfChains(rest, |rows|, registers, used);
      RegisteredNext(confirmed, c, |rows|, registers);
      confirmed := confirmed + [c];
      at, rest := at + size, rest[used..];
    }
    PassEnds(rows, skip, size, at, confirmed);
    return Ok, confirmed;
  }

  /** Past the last row, the number of batches is the planned one and they cover all rows. */
  lemma PassEnds(rows: seq<Row>, skip: nat, size: nat, at: nat, confirmed: seq<Confirmation>)
    requires size > 0 && skip < |rows| <= at < |rows| + size && Passed(rows, skip, size, at, confirmed)
    ensures |confirmed| == BatchCount(|rows|, skip, size) && Concat(confirmed) == rows[skip..]
  {
    CountOfSteps(|rows|, skip, size, |confirmed|);
  }

  lemma CountIsZero(total: nat, start: nat, size: nat)
    requires size > 0
    ensures BatchCount(total, start, size) == 0 <==> start >= total
  {
    if start < total {
      assert total - start + size - 1 >= size;
    }
  }

  lemma CountOfSteps(total: nat, start: nat, size: nat, k: nat)
    requires size > 0 && start < total
    requires total <= start + k * size < total + size
    ensures k == BatchCount(total, start, size)
  {
    QuotientIs(total - start + size - 1, size, k);
  }

  // ---------------------------------------------------------------------------------
  // Whole launches
  // ---------------------------------------------------------------------------------

  /** Rows the chain holds in each phase, in the order their spends confirmed. */
  datatype Ledger = Ledger(precommitted: seq<Row>, registered: seq<Row>)

  /**
   A reorganization drops the newest spends; a try runs the command for one driver position and one
   batch size. The phases have sizes of their own, and a restarted driver may be given others.
   */
  datatype Move =
    | Reorg(precommitted: nat, registered: nat)
    | Try(logical: nat, size: nat, fails: bool, push: Push)

  function Seen(l: Ledger): Chain {
    Chain(|l.registered|, |l.precommitted|)
  }

  function Truncated(s: seq<Row>, keep: nat): seq<Row> {
    if keep < |s| then s[..keep] else s
  }

  /** What one move leaves on chain; a spend that is answered yes and confirms adds the batch the command printed. */
  function Moved(rows: seq<Row>, l: Ledger, m: Move): Ledger {
    match m
    case Reorg(p, r) => Ledger(Truncated(l.precommitted, p), Truncated(l.registered, r))
    case Try(logical, size, fails, push) =>
      var verdict := Verdict(rows, logical, size, Attempt(Seen(l), fails, push));
      if !verdict.1 || push != Confirmed then l
      else
        match CliRun(rows, SafeSkip(logical), size, Seen(l))
        case AlreadyDone => l
        case Prompt(printed) =>
          if l.registered == [] && |l.precommitted| < |rows|
          then l.(precommitted := l.precommitted + printed) else l.(registered := l.registered + printed)
  }

  function Launched(rows: seq<Row>, moves: seq<Move>): Ledger {
    if moves == [] then Ledger([], [])
    else Moved(rows, Launched(rows, moves[..|moves| - 1]), moves[|moves| - 1])
  }

  ghost predicate NoHole(rows: seq<Row>, l: Ledger) {
    l.precommitted <= rows && l.registered <= rows
  }

  lemma BatchExtends(rows: seq<Row>, done: seq<Row>, size: nat)
    requires done <= rows
    ensures done + Batch(rows, |done|, size) <= rows
  {
  }

  /** An answered prompt prints the batch at the frontier of the phase it belongs to. */
  lemma YesPrintsFrontier(rows: seq<Row>, logical: nat, size: nat, a: Attempt)
    requires Distinct(rows) && logical < |rows| && size > 0 && OnChain(a.chain, |rows|)
    requires Verdict(rows, logical, size, a).1
    ensures CliRun(rows, SafeSkip(logical), size, a.chain) == Prompt(Batch(rows, Frontier(|rows|, a.chain), size))
  {
    PromptShowsFrontier(rows, logical, size, a.chain);
  }

  /** The driver only tries positions it has rows for, with a positive size. */
  predicate Tried(rows: seq<Row>, m: Move) {
    m.Try? ==> m.logical < |rows| && m.size > 0
  }

  lemma MoveKeepsPrefix(rows: seq<Row>, l: Ledger, m: Move)
    requires Distinct(rows) && NoHole(rows, l) && Tried(rows, m)
    ensures NoHole(rows, Moved(rows, l, m))
  {
    if m.Try? {
      var a := Attempt(Seen(l), m.fails, m.push);
      BatchExtends(rows, l.precommitted, m.size);
      BatchExtends(rows, l.registered, m.size);
      if Verdict(rows, m.logical, m.size, a).1 {
        YesPrintsFrontier(rows, m.logical, m.size, a);
      }
    }
  }

  /**
   Whatever positions and sizes the driver tries and however deep reorganizations cut, what is on
   chain in either phase is always a prefix of the rows.
   */
  lemma {:induction false} ProgressNeverHasAHole(rows: seq<Row>, moves: seq<Move>)
    requires Distinct(rows) && forall m :: m in moves ==> Tried(rows, m)
    ensures NoHole(rows, Launched(rows, moves))
  {
    if moves != [] {
      ProgressNeverHasAHole(rows, moves[..|moves| - 1]);
      MoveKeepsPrefix(rows, Launched(rows, moves[..|moves| - 1]), moves[|moves| - 1]);
    }
  }

  /** Passing the position itself as the skip would show the expected batch over any truncation that keeps a row. */
  lemma FullSkipHidesTruncation(rows: seq<Row>, logical: nat, size: nat, c: Chain)
    requires OnChain(c, |rows|) && 0 < c.registered < logical < |rows| && 1 < logical
    ensures CliRun(rows, logical, size, c) == Prompt(Batch(rows, logical, size))
  {
    ScanIs(|rows|, c.registered, logical);
  }

  /** With nothing registered and a row yet to precommit, the driver's yes confirms precommitments, in either pass. */
  lemma PrecommitPassesForRegistration(rows: seq<Row>, size: nat, c: Chain)
    requires Distinct(rows) && size > 0 && c.registered == 0 && c.precommitted < |rows|
    ensures Verdict(rows, c.precommitted, size, Attempt(c, false, Confirmed)) == (Ok, true)
    ensures !Registers(|rows|, c)
  {
    YesIffAtFrontier(rows, c.precommitted, size, Attempt(c, false, Confirmed));
  }

  /** What a confirmed spend of a pass does to the ledger it was built on: it extends the phase its chain was in. */
  lemma ConfirmationExtendsLedger(rows: seq<Row>, start: nat, size: nat, l: Ledger, c: Confirmation)
    requires Distinct(rows) && size > 0 && NoHole(rows, l)
    requires Seen(l) == c.chain && c.chain.registered < |rows| && CoversAt(rows, start, size, c)
    ensures
      var after := Moved(rows, l, Try(start, size, false, Confirmed));
      after == if Registers(|rows|, c.chain) then l.(registered := l.registered + c.batch)
               else l.(precommitted := l.precommitted + c.batch)
  {
    var a := Attempt(c.chain, false, Confirmed);
    YesIffAtFrontier(rows, start, size, a);
    YesPrintsFrontier(rows, start, size, a);
  }
}

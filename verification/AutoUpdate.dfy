/**
 The throttled updater status and the elevated command line of crates/dig-app-core/src/auto_update.rs.
 */
module AutoUpdate {
  import opened Wrappers
  import opened Clock
  import opened Text
  import Arithmetic
  import Decimal

  // ---------------------------------------------------------------- the throttled reading

  /** How long a reading is reused, in nanoseconds. */
  const BEACON_REFRESH: nat := 5_000_000_000

  /** A reading, `None` when nobody answered, and when it was taken. */
  datatype Taken<S> = Taken(at: nat, reading: Option<S>)

  /** Whether a read at `now` asks for a new reading rather than reusing the held one. */
  predicate Asks<S>(held: Option<Taken<S>>, now: nat) {
    held.None? || Since(held.value.at, now) >= BEACON_REFRESH
  }

  class BeaconCache<S> {
    var held: Option<Taken<S>>

    constructor ()
      ensures held == None
    {
      held := None;
    }

    /** Reads under the lock; `fetched` is what the source would answer, `asked` whether it was asked. */
    method Read(now: nat, fetched: Option<S>) returns (reading: Option<S>, asked: bool)
      modifies this
      ensures asked <==> Asks(old(held), now)
      ensures held == if asked then Some(Taken(now, fetched)) else old(held)
      ensures held.Some? && reading == held.value.reading
    {
      if held.Some? {
        if Since(held.value.at, now) < BEACON_REFRESH {
          return held.value.reading, false;
        }
      }
      reading := fetched;
      held := Some(Taken(now, reading));
      asked := true;
    }

    /** The part of a refresh under the lock: what was `fetched` before the lock was had is held. */
    method Refresh(now: nat, fetched: Option<S>) returns (reading: Option<S>)
      modifies this
      ensures held == Some(Taken(now, fetched)) && reading == fetched
    {
      reading := fetched;
      held := Some(Taken(now, reading));
    }
  }

  // ---------------------------------------------------------------- runs

  /** One critical section, with the time its caller read and the answer the source would give or gave. */
  datatype Step<S> = Read(now: nat, fetched: Option<S>) | Refresh(now: nat, fetched: Option<S>)

  /** What is held before step `n` of a run from the empty cache. */
  function HeldAt<S>(run: seq<Step<S>>, n: nat): Option<Taken<S>>
    requires n <= |run|
    decreases n, 0
  {
    if n == 0 then None
    else if Stores(run, n - 1) then Some(Taken(run[n - 1].now, run[n - 1].fetched))
    else HeldAt(run, n - 1)
  }

  /** Step `i` is a read that asks the source. */
  predicate Spawns<S>(run: seq<Step<S>>, i: nat)
    requires i < |run|
    decreases i, 1
  {
    run[i].Read? && Asks(HeldAt(run, i), run[i].now)
  }

  /** Step `i` puts a new reading in the cache. */
  predicate Stores<S>(run: seq<Step<S>>, i: nat)
    requires i < |run|
    decreases i, 2
  {
    run[i].Refresh? || Spawns(run, i)
  }

  /** `i` is the last step before `n` that put a reading in the cache. */
  ghost predicate LastStore<S>(run: seq<Step<S>>, i: nat, n: nat)
    requires n <= |run|
  {
    i < n && Stores(run, i) && forall j: nat :: i < j < n ==> !Stores(run, j)
  }

  /** What is held is exactly what the last storing step put there. */
  lemma {:induction false} HeldIsLastStored<S>(run: seq<Step<S>>, n: nat)
    requires n <= |run|
    ensures HeldAt(run, n).None? <==> n == 0
    ensures forall i: nat :: LastStore(run, i, n) ==> HeldAt(run, n) == Some(Taken(run[i].now, run[i].fetched))
    ensures n > 0 ==> exists i: nat :: LastStore(run, i, n)
  {
    if n > 0 {
      HeldIsLastStored(run, n - 1);
      if Stores(run, n - 1) {
        assert LastStore(run, n - 1, n);
      } else {
        var i: nat :| LastStore(run, i, n - 1);
        assert LastStore(run, i, n);
        forall j: nat | LastStore(run, j, n) ensures LastStore(run, j, n - 1) {
        }
      }
    }
  }

  /** What a read answers: what is held once its own step is over. */
  function AnswerAt<S>(run: seq<Step<S>>, n: nat): Option<S>
    requires n < |run| && run[n].Read?
  {
    if Spawns(run, n) then run[n].fetched else HeldAt(run, n).value.reading
  }

  /**
   Every read, in every run, answers with the most recently stored reading, an absent one included, and
   one taken less than the refresh interval before the read. Refreshes change neither.
   */
  lemma AnswersAreCurrent<S>(run: seq<Step<S>>, n: nat, i: nat)
    requires n < |run| && run[n].Read? && LastStore(run, i, n + 1)
    ensures AnswerAt(run, n) == run[i].fetched
    ensures run[n].now < run[i].now + 5_000_000_000
  {
    HeldIsLastStored(run, n);
    if !Stores(run, n) {
      assert LastStore(run, i, n);
    }
  }

  /** A read asks the source only when the last reading stored is at least the interval old, or there is none. */
  lemma AskingNeedsAge<S>(run: seq<Step<S>>, i: nat, n: nat)
    requires n < |run| && run[n].Read? && LastStore(run, i, n)
    ensures Spawns(run, n) <==> run[i].now + 5_000_000_000 <= run[n].now
  {
    HeldIsLastStored(run, n);
  }

  /** Which steps store a reading: every refresh, a read that comes first, and one that finds a reading five seconds old. */
  lemma StoresExactly<S>(run: seq<Step<S>>, n: nat)
    requires n < |run|
    ensures Stores(run, n) <==>
            || run[n].Refresh? || n == 0
            || exists i: nat :: LastStore(run, i, n) && run[i].now + 5_000_000_000 <= run[n].now
    ensures Spawns(run, n) <==> run[n].Read? && Stores(run, n)
  {
    hide LastStore;
    HeldIsLastStored(run, n);
    if n > 0 {
      var i: nat :| LastStore(run, i, n);
      LastStoreIsOne(run, i, n);
    }
  }

  lemma LastStoreIsOne<S>(run: seq<Step<S>>, i: nat, n: nat)
    requires n <= |run| && LastStore(run, i, n)
    ensures forall j: nat :: LastStore(run, j, n) ==> j == i
  {
    hide Stores;
  }

  /** How far a refresh dates the held reading back: it fetched before the reading it now replaces was taken. */
  function Setback<S>(run: seq<Step<S>>, n: nat): nat
    requires n < |run|
  {
    if run[n].Refresh? && HeldAt(run, n).Some? then Since(run[n].now, HeldAt(run, n).value.at) else 0
  }

  /** All the setbacks from step `lo` up to but not including `hi`. */
  function Setbacks<S>(run: seq<Step<S>>, lo: nat, hi: nat): nat
    requires lo <= hi <= |run|
  {
    if lo == hi then 0 else Setbacks(run, lo, hi - 1) + Setback(run, hi - 1)
  }

  /** The number of reads from step `lo` up to but not including `hi` that ask the source. */
  function SpawnCount<S>(run: seq<Step<S>>, lo: nat, hi: nat): nat
    requires lo <= hi <= |run|
  {
    if lo == hi then 0 else SpawnCount(run, lo, hi - 1) + if Spawns(run, hi - 1) then 1 else 0
  }

  /** A step dates the reading back by how much earlier a refresh was dated than the reading it replaced. */
  lemma SetbackExactly<S>(run: seq<Step<S>>, i: nat, n: nat)
    requires n < |run|
    ensures LastStore(run, i, n) && run[n].Refresh? ==>
              Setback(run, n) == if run[n].now < run[i].now then run[i].now - run[n].now else 0
    ensures run[n].Read? || n == 0 ==> Setback(run, n) == 0
  {
    HeldIsLastStored(run, n);
  }

  /** Setbacks add up, and so do the reads that ask: their number is that of the steps that are such reads. */
  lemma {:induction false} TotalsAdd<S>(run: seq<Step<S>>, lo: nat, mid: nat, hi: nat)
    requires lo <= mid <= hi <= |run|
    ensures Setbacks(run, lo, hi) == Setbacks(run, lo, mid) + Setbacks(run, mid, hi)
    ensures mid < hi ==> Setbacks(run, mid, mid + 1) == Setback(run, mid)
    decreases hi
  {
    hide Setback;
    if mid < hi {
      TotalsAdd(run, lo, mid, hi - 1);
      assert Setbacks(run, mid, mid) == 0;
    }
  }

  /** The steps that are reads which ask. */
  function AskingReads<S>(run: seq<Step<S>>, lo: nat, hi: nat): set<nat>
    requires lo <= hi <= |run|
  {
    set i: nat | lo <= i < hi && Spawns(run, i)
  }

  lemma {:induction false} SpawnCountExactly<S>(run: seq<Step<S>>, lo: nat, hi: nat)
    requires lo <= hi <= |run|
    ensures SpawnCount(run, lo, hi) == |AskingReads(run, lo, hi)|
    decreases hi
  {
    hide Spawns;
    if lo < hi {
      SpawnCountExactly(run, lo, hi - 1);
      var sooner := AskingReads(run, lo, hi - 1);
      assert AskingReads(run, lo, hi) == if Spawns(run, hi - 1) then sooner + {hi - 1} else sooner;
    }
  }

  lemma HeldAfterOne<S>(run: seq<Step<S>>, n: nat)
    requires n < |run| && HeldAt(run, n).Some?
    ensures HeldAt(run, n + 1).Some?
    ensures var before, after := HeldAt(run, n).value.at, HeldAt(run, n + 1).value.at;
            after + Setback(run, n) >= before + if Spawns(run, n) then BEACON_REFRESH else 0
  {
  }

  lemma {:induction false} HeldAdvances<S>(run: seq<Step<S>>, i: nat, n: nat)
    requires i < n <= |run| && Spawns(run, i)
    ensures HeldAt(run, n).Some?
    ensures HeldAt(run, n).value.at + Setbacks(run, i, n)
         >= run[i].now + (SpawnCount(run, i, n) - 1) * BEACON_REFRESH
  {
    if n == i + 1 {
      assert SpawnCount(run, i, i) == 0;
    } else {
      hide HeldAt, Spawns, Setback;
      HeldAdvances(run, i, n - 1);
      HeldAfterOne(run, n - 1);
      Arithmetic.Distribute(SpawnCount(run, i, n - 1) - 1, 1, BEACON_REFRESH);
    }
  }

  /**
   The throttle, over every run: if `n` reads before a read that asks have themselves asked, counting from
   one of them, then `n` whole intervals lie between, less only what late refreshes dated back.
   */
  lemma FetchesSpan<S>(run: seq<Step<S>>, i: nat, j: nat)
    requires i < j < |run| && Spawns(run, i) && Spawns(run, j)
    ensures run[j].now + Setbacks(run, i, j) >= run[i].now + SpawnCount(run, i, j) * BEACON_REFRESH
    ensures SpawnCount(run, i, j) > 0
  {
    HeldAdvances(run, i, j);
    SpawnsCounted(run, i, j);
  }

  lemma {:induction false} SpawnsCounted<S>(run: seq<Step<S>>, i: nat, j: nat)
    requires i < j <= |run| && Spawns(run, i)
    ensures SpawnCount(run, i, j) > 0
  {
    if j > i + 1 {
      SpawnsCounted(run, i, j - 1);
    }
  }

  /** Nothing is dated back without refreshes, at whatever times; nor when times never go back. */
  lemma {:induction false} NothingDatedBack<S>(run: seq<Step<S>>, lo: nat, hi: nat)
    requires lo <= hi <= |run|
    requires
      || (forall n :: lo <= n < hi ==> run[n].Read?)
      || (forall i, n :: 0 <= i < n < hi ==> run[i].now <= run[n].now)
    ensures Setbacks(run, lo, hi) == 0
  {
    if lo < hi {
      NothingDatedBack(run, lo, hi - 1);
      HeldIsLastStored(run, hi - 1);
      if hi > 1 {
        var last: nat :| LastStore(run, last, hi - 1);
      }
    }
  }

  /** `i` is the last read before step `n` to ask the source. */
  ghost predicate LastSpawn<S>(run: seq<Step<S>>, i: nat, n: nat)
    requires n <= |run|
  {
    i < n && Spawns(run, i) && forall j: nat :: i < j < n ==> !Spawns(run, j)
  }

  /**
   When the throttle can fail, exactly: a read taken next can ask within an interval of the last read that
   asked just when the reading held is dated before that read. It is then a refresh that stored it, late.
   */
  lemma CrowdedExactly<S>(run: seq<Step<S>>, i: nat, fetched: Option<S>)
    requires LastSpawn(run, i, |run|)
    ensures HeldAt(run, |run|).Some?
    ensures (exists t: nat :: t < run[i].now + BEACON_REFRESH && Spawns(run + [Read(t, fetched)], |run|))
       <==> HeldAt(run, |run|).value.at < run[i].now
    ensures HeldAt(run, |run|).value.at < run[i].now ==>
              exists l: nat :: LastStore(run, l, |run|) && l > i && run[l].Refresh? && run[l].now < run[i].now
  {
    HeldIsLastStored(run, |run|);
    var l: nat :| LastStore(run, l, |run|);
    var at := HeldAt(run, |run|).value.at;
    forall t: nat ensures Spawns(run + [Read(t, fetched)], |run|) <==> t >= at + BEACON_REFRESH {
      HeldOfPrefix(run, Read(t, fetched), |run|);
    }
    if at < run[i].now {
      assert Spawns(run + [Read(at + BEACON_REFRESH, fetched)], |run|);
      assert Stores(run, i) && l >= i;
      assert l > i && !Spawns(run, l);
    }
  }

  lemma {:induction false} HeldOfPrefix<S>(run: seq<Step<S>>, step: Step<S>, n: nat)
    requires n <= |run|
    ensures HeldAt(run + [step], n) == HeldAt(run, n)
  {
    if n > 0 {
      HeldOfPrefix(run, step, n - 1);
      assert (run + [step])[n - 1] == run[n - 1];
      assert Stores(run + [step], n - 1) == Stores(run, n - 1);
    }
  }

  /**
   A refresh fetches before it has the lock. One that lands after a later read replaces the newer reading
   by its own older one, and the next read asks again at once.
   */
  lemma LateRefreshCrowdsFetches<S>(older: Option<S>, newer: Option<S>)
    ensures var run := [Read(BEACON_REFRESH, newer), Refresh(0, older), Read(BEACON_REFRESH, newer)];
            && Spawns(run, 0) && Spawns(run, 2) && run[0].now == run[2].now
            && HeldAt(run, 2) == Some(Taken(0, older))
  {
    var run := [Read(BEACON_REFRESH, newer), Refresh(0, older), Read(BEACON_REFRESH, newer)];
    assert Stores(run, 1) && HeldAt(run, 2) == Some(Taken(0, older));
  }

  // ---------------------------------------------------------------- the elevated command

  const BEACON_PATH_VAR: string := "DIG_ELEVATE_PROGRAM"
  const BEACON_ARG_VAR_PREFIX: string := "DIG_ELEVATE_ARG"

  datatype Elevation = Elevation(program: string, args: seq<string>, env: seq<(string, string)>)

  function ArgVar(index: nat): string {
    BEACON_ARG_VAR_PREFIX + Decimal.Numeral(index)
  }

  function Reference(name: string): string {
    "$env:" + name
  }

  /** The references to the first `n` arguments. */
  function ArgReferences(n: nat): (refs: seq<string>)
    ensures |refs| == n && forall i :: 0 <= i < n ==> refs[i] == Reference(ArgVar(i))
  {
    if n == 0 then [] else ArgReferences(n - 1) + [Reference(ArgVar(n - 1))]
  }

  /** The PowerShell source handed to `-Command`: of the arguments, only their number is in it. */
  function Script(argCount: nat): string {
    "Start-Process -FilePath " + Reference(BEACON_PATH_VAR)
    + (if argCount == 0 then "" else " -ArgumentList " + Join(ArgReferences(argCount), ','))
    + " -Verb RunAs -Wait"
  }

  /** How the script spells the references: fixed names, and each argument's place in decimal. */
  lemma ReferencesSpelled(n: nat, i: nat)
    requires i < n
    ensures Reference(BEACON_PATH_VAR) == "$env:DIG_ELEVATE_PROGRAM"
    ensures ArgReferences(n)[i] == "$env:DIG_ELEVATE_ARG" + Decimal.Numeral(i)
  {
    hide Decimal.Numeral, Reference;
    ProgramSpelled();
    ArgumentSpelled(Decimal.Numeral(i));
  }

  lemma ProgramSpelled()
    ensures Reference(BEACON_PATH_VAR) == "$env:DIG_ELEVATE_PROGRAM"
  {
  }

  lemma ArgumentSpelled(numeral: string)
    ensures Reference(BEACON_ARG_VAR_PREFIX + numeral) == "$env:DIG_ELEVATE_ARG" + numeral
  {
    assert "$env:" + BEACON_ARG_VAR_PREFIX == "$env:DIG_ELEVATE_ARG";
    assert Reference(BEACON_ARG_VAR_PREFIX + numeral) == "$env:" + BEACON_ARG_VAR_PREFIX + numeral;
  }

  /** The environment block: the program, then every argument under its own name. */
  function Environment(program: string, args: seq<string>): (env: seq<(string, string)>)
    ensures |env| == |args| + 1 && env[0] == (BEACON_PATH_VAR, program)
    ensures forall i :: 0 <= i < |args| ==> env[i + 1] == (ArgVar(i), args[i])
  {
    if args == [] then [(BEACON_PATH_VAR, program)]
    else Environment(program, args[..|args| - 1]) + [(ArgVar(|args| - 1), args[|args| - 1])]
  }

  /** How to run `program` with elevated rights on `os`, if DIG will. */
  method ElevatedCommand(os: string, program: string, args: seq<string>) returns (elevation: Option<Elevation>)
    ensures elevation ==
            if os == "windows" then
              Some(Elevation("powershell", ["-NoProfile", "-Command", Script(|args|)], Environment(program, args)))
            else if os == "linux" then Some(Elevation("pkexec", [program] + args, []))
            else None
  {
    if os == "windows" {
      var env := [(BEACON_PATH_VAR, program)];
      var refs: seq<string> := [];
      for index := 0 to |args|
        invariant refs == ArgReferences(index)
        invariant env == Environment(program, args[..index])
      {
        var name := ArgVar(index);
        refs := refs + [Reference(name)];
        env := env + [(name, args[index])];
        assert args[..index + 1][..index] == args[..index];
      }
      assert args[..|args|] == args;
      var argumentList := if refs == [] then "" else " -ArgumentList " + Join(refs, ',');
      var script := "Start-Process -FilePath " + Reference(BEACON_PATH_VAR) + argumentList + " -Verb RunAs -Wait";
      return Some(Elevation("powershell", ["-NoProfile", "-Command", script], env));
    } else if os == "linux" {
      return Some(Elevation("pkexec", [program] + args, []));
    } else {
      return None;
    }
  }

  // ---------------------------------------------------------------- what the shell makes of it

  /** The value of an environment variable, whose name is looked up without regard to case. */
  function Lookup(env: seq<(string, string)>, name: string): Option<string> {
    if env == [] then None
    else if EqIgnoreCase(env[0].0, name) then Some(env[0].1)
    else Lookup(env[1..], name)
  }

  /** One command argument: a reference stands for its variable's value, whole. */
  function Resolve(env: seq<(string, string)>, word: string): Option<string> {
    if |word| > 5 && word[..5] == "$env:" then Lookup(env, word[5..]) else None
  }

  function ResolveAll(env: seq<(string, string)>, words: seq<string>): Option<seq<string>> {
    if words == [] then Some([])
    else
      var first :- Resolve(env, words[0]);
      var rest :- ResolveAll(env, words[1..]);
      Some([first] + rest)
  }

  /** The program and arguments a `Start-Process` line launches: words at spaces, list items at commas. */
  function Launched(script: string, env: seq<(string, string)>): Option<(string, seq<string>)> {
    var words := Split(script, ' ');
    if |words| == 6 && words[..2] == ["Start-Process", "-FilePath"] && words[3..] == ["-Verb", "RunAs", "-Wait"] then
      var file :- Resolve(env, words[2]);
      Some((file, []))
    else if |words| == 8 && words[..2] == ["Start-Process", "-FilePath"] && words[3] == "-ArgumentList"
            && words[5..] == ["-Verb", "RunAs", "-Wait"] then
      var file :- Resolve(env, words[2]);
      var arguments :- ResolveAll(env, Split(words[4], ','));
      Some((file, arguments))
    else None
  }

  /** A name of the environment block: upper-case letters, digits and underscores. */
  predicate PlainName(s: string) {
    forall i :: 0 <= i < |s| ==> IsUpper(s[i]) || Decimal.IsDigit(s[i]) || s[i] == '_'
  }

  lemma PlainUpper(s: string)
    requires PlainName(s)
    ensures Upper(s) == s
  {
  }

  lemma ArgVarPlain(i: nat)
    ensures PlainName(ArgVar(i)) && PlainName(BEACON_PATH_VAR)
  {
  }

  /** The generated names are pairwise distinct, even to a platform that ignores case. */
  lemma NamesDistinct(i: nat, j: nat)
    ensures EqIgnoreCase(ArgVar(i), ArgVar(j)) ==> i == j
    ensures !EqIgnoreCase(BEACON_PATH_VAR, ArgVar(i))
  {
    ArgVarPlain(i);
    ArgVarPlain(j);
    PlainUpper(ArgVar(i));
    PlainUpper(ArgVar(j));
    PlainUpper(BEACON_PATH_VAR);
    var n := |BEACON_ARG_VAR_PREFIX|;
    assert ArgVar(i)[12] == 'A' && BEACON_PATH_VAR[12] == 'P';
    if ArgVar(i) == ArgVar(j) {
      assert ArgVar(i)[n..] == Decimal.Numeral(i) && ArgVar(j)[n..] == Decimal.Numeral(j);
      Decimal.NumeralInjective(i, j);
    }
  }

  lemma {:induction false} LookupFinds(env: seq<(string, string)>, k: nat)
    requires k < |env| && forall i :: 0 <= i < k ==> !EqIgnoreCase(env[i].0, env[k].0)
    ensures Lookup(env, env[k].0) == Some(env[k].1)
  {
    if k > 0 {
      LookupFinds(env[1..], k - 1);
    }
  }

  lemma ProgramResolves(program: string, args: seq<string>)
    ensures Resolve(Environment(program, args), Reference(BEACON_PATH_VAR)) == Some(program)
  {
    LookupFinds(Environment(program, args), 0);
    assert Reference(BEACON_PATH_VAR)[5..] == BEACON_PATH_VAR;
  }

  lemma ArgumentResolves(program: string, args: seq<string>, i: nat)
    requires i < |args|
    ensures Resolve(Environment(program, args), Reference(ArgVar(i))) == Some(args[i])
  {
    var env := Environment(program, args);
    forall k | 0 <= k < i + 1 ensures !EqIgnoreCase(env[k].0, env[i + 1].0) {
      if k > 0 {
        NamesDistinct(k - 1, i);
        assert env[k - 1 + 1] == (ArgVar(k - 1), args[k - 1]);
      } else {
        NamesDistinct(i, i);
      }
    }
    LookupFinds(env, i + 1);
    assert Reference(ArgVar(i))[5..] == ArgVar(i);
  }

  lemma {:induction false} ArgumentsResolve(program: string, args: seq<string>, from: nat)
    requires from <= |args|
    ensures ResolveAll(Environment(program, args), ArgReferences(|args|)[from..]) == Some(args[from..])
    decreases |args| - from
  {
    hide Resolve, Environment;
    if from < |args| {
      ArgumentResolves(program, args, from);
      ArgumentsResolve(program, args, from + 1);
      assert ArgReferences(|args|)[from..][1..] == ArgReferences(|args|)[from + 1..];
      assert args[from..] == [args[from]] + args[from + 1..];
    } else {
      assert args[from..] == [] && ArgReferences(|args|)[from..] == [];
    }
  }

  /** The words of the script. */
  function Words(argCount: nat): seq<string> {
    ["Start-Process", "-FilePath", Reference(BEACON_PATH_VAR)]
    + (if argCount == 0 then [] else ["-ArgumentList", Join(ArgReferences(argCount), ',')])
    + ["-Verb", "RunAs", "-Wait"]
  }

  lemma ReferencePlain(i: nat)
    ensures ' ' !in Reference(ArgVar(i)) && ',' !in Reference(ArgVar(i))
  {
    ArgVarPlain(i);
    assert forall k :: 0 <= k < |Reference(ArgVar(i))| ==>
             Reference(ArgVar(i))[k] == if k < 5 then "$env:"[k] else ArgVar(i)[k - 5];
  }

  lemma {:induction false} JoinFreeOf(parts: seq<string>, c: char, avoided: char)
    requires avoided != c && forall i :: 0 <= i < |parts| ==> avoided !in parts[i]
    ensures avoided !in Join(parts, c)
  {
    if |parts| > 1 {
      JoinFreeOf(parts[1..], c, avoided);
    }
  }

  lemma ListIsOneWord(n: nat)
    ensures ' ' !in Join(ArgReferences(n), ',')
    ensures n > 0 ==> Split(Join(ArgReferences(n), ','), ',') == ArgReferences(n)
  {
    forall i | 0 <= i < n ensures ' ' !in ArgReferences(n)[i] && ',' !in ArgReferences(n)[i] {
      ReferencePlain(i);
    }
    JoinFreeOf(ArgReferences(n), ',', ' ');
    if n > 0 {
      SplitOfJoin(ArgReferences(n), ',');
    }
  }

  lemma JoinCons(first: string, rest: seq<string>, c: char)
    requires rest != []
    ensures Join([first] + rest, c) == first + [c] + Join(rest, c)
  {
  }

  lemma JoinTail()
    ensures Join(["-Verb", "RunAs", "-Wait"], ' ') == "-Verb RunAs -Wait"
  {
  }

  lemma JoinHead(file: string, rest: seq<string>)
    requires rest != []
    ensures Join(["Start-Process", "-FilePath", file] + rest, ' ')
         == "Start-Process -FilePath " + file + " " + Join(rest, ' ')
  {
    JoinCons(file, rest, ' ');
    JoinCons("-FilePath", [file] + rest, ' ');
    JoinCons("Start-Process", ["-FilePath"] + ([file] + rest), ' ');
    assert ["Start-Process", "-FilePath", file] + rest == ["Start-Process"] + (["-FilePath"] + ([file] + rest));
  }

  lemma Regroup(head: string, file: string, option: string, list: string, tail: string)
    ensures head + file + "" + (" " + tail) == head + file + " " + tail
    ensures head + file + (" " + option + " " + list) + (" " + tail)
         == head + file + " " + (option + " " + (list + " " + tail))
  {
  }

  lemma Literals()
    ensures " -Verb RunAs -Wait" == " " + "-Verb RunAs -Wait"
    ensures " -ArgumentList " == " " + "-ArgumentList" + " "
  {
  }

  lemma WordsJoined(n: nat)
    ensures Join(Words(n), ' ') == Script(n)
  {
    hide ArgReferences, Decimal.Numeral, Reference, Join;
    var file, tail := Reference(BEACON_PATH_VAR), ["-Verb", "RunAs", "-Wait"];
    var list := Join(ArgReferences(n), ',');
    JoinTail();
    Literals();
    Regroup("Start-Process -FilePath ", file, "-ArgumentList", list, "-Verb RunAs -Wait");
    if n == 0 {
      JoinHead(file, tail);
      assert Words(n) == ["Start-Process", "-FilePath", file] + tail;
    } else {
      JoinCons(list, tail, ' ');
      JoinCons("-ArgumentList", [list] + tail, ' ');
      JoinHead(file, ["-ArgumentList"] + ([list] + tail));
      assert Words(n) == ["Start-Process", "-FilePath", file] + (["-ArgumentList"] + ([list] + tail));
    }
  }

  lemma LiteralsAreWords()
    ensures forall word :: word in ["Start-Process", "-FilePath", Reference(BEACON_PATH_VAR)] ==> ' ' !in word
    ensures forall word :: word in ["-ArgumentList", "-Verb", "RunAs", "-Wait"] ==> ' ' !in word
  {
  }

  lemma WordsArePlain(n: nat, i: nat)
    requires i < |Words(n)|
    ensures ' ' !in Words(n)[i]
  {
    hide Join, Reference, ArgReferences;
    LiteralsAreWords();
    ListIsOneWord(n);
    var list := Join(ArgReferences(n), ',');
    assert Words(n)[i] == list || Words(n)[i] in ["Start-Process", "-FilePath", Reference(BEACON_PATH_VAR)]
      || Words(n)[i] in ["-ArgumentList", "-Verb", "RunAs", "-Wait"];
  }

  lemma ScriptIsItsWords(n: nat)
    ensures Split(Script(n), ' ') == Words(n)
  {
    WordsNotEmpty(n);
    hide Script, Join, Split, Words;
    WordsJoined(n);
    forall i | 0 <= i < |Words(n)| ensures ' ' !in Words(n)[i] {
      WordsArePlain(n, i);
    }
    SplitOfJoin(Words(n), ' ');
  }

  lemma WordsNotEmpty(n: nat)
    ensures Words(n) != []
  {
  }

  /**
   The elevated line launches exactly the program with exactly the arguments, in order and verbatim,
   whatever characters are in them.
   */
  lemma EveryValueArrives(program: string, args: seq<string>)
    ensures Launched(Script(|args|), Environment(program, args)) == Some((program, args))
  {
    hide Script, Join, Split, Environment, Lookup, Resolve;
    var env, words := Environment(program, args), Words(|args|);
    ScriptIsItsWords(|args|);
    ProgramResolves(program, args);
    if args != [] {
      ListIsOneWord(|args|);
      ArgumentsResolve(program, args, 0);
      assert ArgReferences(|args|)[0..] == ArgReferences(|args|) && args[0..] == args;
      assert words[..2] == ["Start-Process", "-FilePath"] && words[5..] == ["-Verb", "RunAs", "-Wait"];
    } else {
      assert words[..2] == ["Start-Process", "-FilePath"] && words[3..] == ["-Verb", "RunAs", "-Wait"];
    }
  }
}

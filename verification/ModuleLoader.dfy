// Running the modules of a bundle (native/modules.c, native/vm.c): each runs at
// most once to success, none within itself, and imports always come to an end.
module ModuleLoader {
  import opened ModulePaths

  // A run imports this and that, by a quoted path or from the standard library, some
  // of it where errors are caught, and then returns or chucks.
  datatype Act = Gimme(path: string, std: bool, caught: bool)
  datatype Script = Script(acts: seq<Act>, chucks: bool)

  // An import is noted once it has been answered, after the run it made, if it made one.
  datatype Event = Began(name: string) | Tried(act: Act, r: Outcome) | Ended(name: string, ok: bool)

  // The module a run made is known by the moment that run ended.
  datatype Outcome =
    | Module(made: nat)
    | Builtin(name: string)
    | NoStdlib
    | NotWired
    | Missing
    | Circular(chain: seq<string>)
    | Chucked

  // STDLIB_REGISTRY
  const STDLIB := ["mafs", "blob", "vault", "json", "yapper", "stash", "groupchat", "rizz", "filez", "clock", "sus",
                   "computer", "internet", "interns"]

  predicate Shipped(name: string) {
    name in STDLIB
  }

  // The part of a name after its last '/'.
  function Base(name: string): string {
    var slash := LastSlash(name, |name|);
    if slash < |name| then name[slash + 1..] else name
  }

  // ----- what happened -----

  // The runs under way after the first k events, innermost last.
  function Open(log: seq<Event>, k: nat): seq<string>
    requires k <= |log|
  {
    if k == 0 then []
    else
      var before := Open(log, k - 1);
      match log[k - 1]
      case Began(name) => before + [name]
      case Tried(_, _) => before
      case Ended(_, _) => if before == [] then [] else before[..|before| - 1]
  }

  // Where those runs began.
  function Starts(log: seq<Event>, k: nat): (starts: seq<nat>)
    requires k <= |log|
    ensures forall i :: 0 <= i < |starts| ==> starts[i] < k
  {
    if k == 0 then []
    else
      var before := Starts(log, k - 1);
      match log[k - 1]
      case Began(_) => before + [k - 1]
      case Tried(_, _) => before
      case Ended(_, _) => if before == [] then [] else before[..|before| - 1]
  }

  // After the first k events the innermost run under way is the one that began with event b.
  predicate Innermost(log: seq<Event>, k: nat, b: nat)
    requires k <= |log|
  {
    var starts := Starts(log, k);
    starts != [] && starts[|starts| - 1] == b
  }

  // The imports answered, among the first k events, to the run that began with event b.
  function Tries(log: seq<Event>, b: nat, k: nat): seq<Event>
    requires k <= |log|
  {
    if k == 0 then []
    else
      var before := Tries(log, b, k - 1);
      if log[k - 1].Tried? && Innermost(log, k - 1, b) then before + [log[k - 1]] else before
  }

  // ----- what should happen -----

  // An import that failed where nothing catches the error.
  predicate Fatal(event: Event) {
    event.Tried? && !event.act.caught && !event.r.Module? && !event.r.Builtin?
  }

  // A run takes what its script does in order, up to the first error that is not caught,
  // and goes well if there is none and it does not chuck.
  ghost predicate GoesBy(script: Script, tries: seq<Event>, ok: bool) {
    && |tries| <= |script.acts|
    && (forall i :: 0 <= i < |tries| ==> tries[i].Tried? && tries[i].act == script.acts[i])
    && (forall i :: 0 <= i < |tries| - 1 ==> !Fatal(tries[i]))
    && (|tries| < |script.acts| ==> tries != [] && Fatal(tries[|tries| - 1]))
    && (ok <==> !script.chucks && forall i :: 0 <= i < |tries| ==> !Fatal(tries[i]))
  }

  // The answer to an import after the first k events: a module if a run of it has gone
  // well, and otherwise what is in the way. A run that has just ended was made for it.
  ghost predicate Answers(pak: bool, bundle: set<string>, log: seq<Event>, k: nat, path: string, std: bool, r: Outcome)
    requires k <= |log|
  {
    && Open(log, k) != []
    && var target := Resolved(Open(log, k)[|Open(log, k)| - 1], path);
    && (match r
        case Module(made) => !std && pak && made < k && log[made] == Ended(target, true)
        case Builtin(name) => std && Shipped(path) && name == path
        case NoStdlib => std && !Shipped(path)
        case NotWired => !std && !pak
        case Missing => !std && pak && target !in bundle
        case Circular(chain) => !std && pak && target in Open(log, k)
                                && chain != [] && chain[0] == chain[|chain| - 1] == Base(target)
        case Chucked => !std && pak && k > 0 && log[k - 1] == Ended(target, false))
    && (k > 0 && log[k - 1].Ended? ==>
          !std && log[k - 1].name == target && r == if log[k - 1].ok then Module(k - 1) else Chucked)
  }

  // Nothing is begun, answered or ended but by the script that is run.
  ghost predicate Lawful(code: (string, seq<Event>) -> Script, pak: bool, bundle: set<string>, log: seq<Event>, j: nat)
    requires j < |log|
  {
    match log[j]
    case Began(_) => j > 0 ==> Ready(log, j)
    case Tried(act, r) => Answers(pak, bundle, log, j, act.path, act.std, r) && !(j > 0 && Fatal(log[j - 1]))
    case Ended(name, ok) => j > 0 && !log[j - 1].Ended? && Told(code, log, j, name, ok)
  }

  // The run under way can go on.
  ghost predicate Ready(log: seq<Event>, k: nat)
    requires k <= |log|
  {
    k > 0 && !log[k - 1].Ended? && !Fatal(log[k - 1])
  }

  // The run that is innermost after the first k events goes by its script.
  ghost predicate Told(code: (string, seq<Event>) -> Script, log: seq<Event>, k: nat, name: string, ok: bool)
    requires k <= |log|
  {
    && Starts(log, k) != []
    && var b := Starts(log, k)[|Starts(log, k)| - 1];
    && log[b] == Began(name)
    && GoesBy(code(name, log[..b + 1]), Tries(log, b, k), ok)
  }

  ghost predicate AllLawful(code: (string, seq<Event>) -> Script, pak: bool, bundle: set<string>, log: seq<Event>) {
    forall j :: 0 <= j < |log| ==> Lawful(code, pak, bundle, log, j)
  }

  ghost predicate Distinct(names: seq<string>) {
    forall i, j :: 0 <= i < j < |names| ==> names[i] != names[j]
  }

  // No module is ever run within itself.
  ghost predicate NeverWithinItself(log: seq<Event>) {
    forall k :: 0 <= k <= |log| ==> Distinct(Open(log, k))
  }

  // No module is run again once a run of it has gone well.
  ghost predicate RunsOnce(log: seq<Event>) {
    forall i, j :: 0 <= i < j < |log| && log[i].Ended? && log[i].ok ==> log[j] != Began(log[i].name)
  }

  // What the loader holds is what happened: the loading stack is the runs under
  // way, the cache the runs that went well.
  ghost predicate Agrees(cache: map<string, nat>, loading: seq<string>, log: seq<Event>) {
    && loading == Open(log, |log|)
    && (forall name :: name in cache ==> cache[name] < |log| && log[cache[name]] == Ended(name, true))
    && (forall i :: 0 <= i < |log| && log[i].Ended? && log[i].ok ==> log[i].name in cache && cache[log[i].name] == i)
  }

  ghost predicate Sane(bundle: set<string>, cache: map<string, nat>, loading: seq<string>, log: seq<Event>) {
    && Agrees(cache, loading, log)
    && NeverWithinItself(log)
    && RunsOnce(log)
    && forall i :: 0 <= i < |loading| ==> loading[i] in bundle && loading[i] !in cache
  }

  ghost predicate Grew(before: map<string, nat>, after: map<string, nat>) {
    forall name :: name in before ==> name in after && after[name] == before[name]
  }

  lemma {:induction false} OpenOfLonger(log: seq<Event>, event: Event, k: nat)
    requires k <= |log|
    ensures Open(log + [event], k) == Open(log, k)
  {
    if k > 0 {
      OpenOfLonger(log, event, k - 1);
    }
  }

  lemma {:induction false} StartsOfLonger(log: seq<Event>, event: Event, k: nat)
    requires k <= |log|
    ensures Starts(log + [event], k) == Starts(log, k)
  {
    if k > 0 {
      StartsOfLonger(log, event, k - 1);
    }
  }

  lemma {:induction false} TriesOfLonger(log: seq<Event>, event: Event, b: nat, k: nat)
    requires k <= |log|
    ensures Tries(log + [event], b, k) == Tries(log, b, k)
  {
    if k > 0 {
      InnermostOfLonger(log, event, k - 1, b);
      hide Innermost;
      TriesOfLonger(log, event, b, k - 1);
    }
  }

  lemma InnermostOfLonger(log: seq<Event>, event: Event, k: nat, b: nat)
    requires k < |log|
    ensures Innermost(log + [event], k, b) == Innermost(log, k, b) && (log + [event])[k] == log[k]
  {
    hide Starts;
    StartsOfLonger(log, event, k);
  }

  // The runs under way are as they were, and those begun before n have had no more answers.
  ghost predicate Untouched(before: seq<Event>, after: seq<Event>, n: nat) {
    && Starts(after, |after|) == Starts(before, |before|)
    && forall b :: 0 <= b < n ==> Tries(after, b, |after|) == Tries(before, b, |before|)
  }

  lemma AnswersLonger(pak: bool, bundle: set<string>, log: seq<Event>, event: Event, k: nat, path: string, std: bool,
        r: Outcome)
    requires k <= |log| && Answers(pak, bundle, log, k, path, std, r)
    ensures Answers(pak, bundle, log + [event], k, path, std, r)
  {
    hide Open, Resolved, Base, Shipped;
    OpenOfLonger(log, event, k);
  }

  lemma ToldLonger(code: (string, seq<Event>) -> Script, log: seq<Event>, event: Event, k: nat, name: string, ok: bool)
    requires k <= |log| && Told(code, log, k, name, ok)
    ensures Told(code, log + [event], k, name, ok)
  {
    hide Starts, Tries, GoesBy;
    var starts := Starts(log, k);
    var b := starts[|starts| - 1];
    StartsOfLonger(log, event, k);
    TriesOfLonger(log, event, b, k);
    assert (log + [event])[..b + 1] == log[..b + 1];
  }

  lemma LawfulStays(code: (string, seq<Event>) -> Script, pak: bool, bundle: set<string>, log: seq<Event>,
        event: Event, j: nat)
    requires j < |log| && Lawful(code, pak, bundle, log, j)
    ensures Lawful(code, pak, bundle, log + [event], j)
  {
    hide Answers, Told;
    match log[j]
    case Began(_) =>
    case Tried(act, r) => AnswersLonger(pak, bundle, log, event, j, act.path, act.std, r);
    case Ended(name, ok) => ToldLonger(code, log, event, j, name, ok);
  }

  lemma LawfulLonger(code: (string, seq<Event>) -> Script, pak: bool, bundle: set<string>, log: seq<Event>,
        event: Event)
    requires AllLawful(code, pak, bundle, log) && Lawful(code, pak, bundle, log + [event], |log|)
    ensures AllLawful(code, pak, bundle, log + [event])
  {
    forall j | 0 <= j < |log| + 1 ensures Lawful(code, pak, bundle, log + [event], j) {
      if j < |log| {
        LawfulStays(code, pak, bundle, log, event, j);
      }
    }
  }

  lemma NoMoreTries(log: seq<Event>, event: Event)
    requires !event.Tried?
    ensures forall b :: 0 <= b <= |log| ==> Tries(log + [event], b, |log| + 1) == Tries(log, b, |log|)
  {
    forall b | 0 <= b <= |log| ensures Tries(log + [event], b, |log| + 1) == Tries(log, b, |log|) {
      TriesOfLonger(log, event, b, |log|);
    }
  }

  lemma StartsNext(log: seq<Event>, event: Event)
    ensures event.Began? ==> Starts(log + [event], |log| + 1) == Starts(log, |log|) + [|log|]
    ensures event.Tried? ==> Starts(log + [event], |log| + 1) == Starts(log, |log|)
    ensures event.Ended? && Starts(log, |log|) != [] ==>
              Starts(log + [event], |log| + 1) == Starts(log, |log|)[..|Starts(log, |log|)| - 1]
  {
    StartsOfLonger(log, event, |log|);
  }

  lemma BeganIsLawful(code: (string, seq<Event>) -> Script, pak: bool, bundle: set<string>, log: seq<Event>,
        name: string)
    requires AllLawful(code, pak, bundle, log) && (log == [] || Ready(log, |log|))
    ensures var after := log + [Began(name)];
            && AllLawful(code, pak, bundle, after)
            && Starts(after, |after|) == Starts(log, |log|) + [|log|]
            && forall b :: 0 <= b < |log| ==> Tries(after, b, |after|) == Tries(log, b, |log|)
  {
    hide AllLawful, Starts, Tries;
    NoMoreTries(log, Began(name));
    StartsNext(log, Began(name));
    LawfulLonger(code, pak, bundle, log, Began(name));
  }

  lemma {:induction false} NoneYet(log: seq<Event>, b: nat, k: nat)
    requires k <= |log| && k <= b
    ensures Tries(log, b, k) == []
  {
    if k > 0 {
      NoneYet(log, b, k - 1);
    }
  }

  lemma OneMoreTry(log: seq<Event>, b: nat, event: Event)
    requires Innermost(log, |log|, b) && event.Tried?
    ensures Tries(log + [event], b, |log| + 1) == Tries(log, b, |log|) + [event]
    ensures forall n :: 0 <= n < b ==> Tries(log + [event], n, |log| + 1) == Tries(log, n, |log|)
  {
    StartsOfLonger(log, event, |log|);
    TriesOfLonger(log, event, b, |log|);
    forall n | 0 <= n < b ensures Tries(log + [event], n, |log| + 1) == Tries(log, n, |log|) {
      TriesOfLonger(log, event, n, |log|);
    }
  }

  lemma TriedIsLawful(code: (string, seq<Event>) -> Script, pak: bool, bundle: set<string>, log: seq<Event>, b: nat,
        act: Act, r: Outcome)
    requires AllLawful(code, pak, bundle, log) && Innermost(log, |log|, b)
    requires Answers(pak, bundle, log, |log|, act.path, act.std, r) && !(log != [] && Fatal(log[|log| - 1]))
    ensures var after := log + [Tried(act, r)];
            && AllLawful(code, pak, bundle, after) && Untouched(log, after, b)
            && Tries(after, b, |after|) == Tries(log, b, |log|) + [Tried(act, r)]
  {
    var event := Tried(act, r);
    hide AllLawful, Starts, Tries;
    AnswersLonger(pak, bundle, log, event, |log|, act.path, act.std, r);
    LawfulLonger(code, pak, bundle, log, event);
    StartsNext(log, event);
    OneMoreTry(log, b, event);
  }

  lemma EndedIsLawful(code: (string, seq<Event>) -> Script, pak: bool, bundle: set<string>, log: seq<Event>,
        name: string, ok: bool)
    requires AllLawful(code, pak, bundle, log) && log != [] && !log[|log| - 1].Ended?
    requires Told(code, log, |log|, name, ok)
    ensures var after := log + [Ended(name, ok)];
            && AllLawful(code, pak, bundle, after)
            && Starts(after, |after|) == Starts(log, |log|)[..|Starts(log, |log|)| - 1]
            && forall b :: 0 <= b < |log| ==> Tries(after, b, |after|) == Tries(log, b, |log|)
  {
    var event := Ended(name, ok);
    assert Starts(log, |log|) != [];
    ToldLonger(code, log, event, |log|, name, ok);
    hide AllLawful, Starts, Tries, Told;
    LawfulLonger(code, pak, bundle, log, event);
    StartsNext(log, event);
    NoMoreTries(log, event);
  }

  lemma TriedKeeps(bundle: set<string>, cache: map<string, nat>, loading: seq<string>, log: seq<Event>, act: Act,
        r: Outcome)
    requires Sane(bundle, cache, loading, log)
    ensures Sane(bundle, cache, loading, log + [Tried(act, r)])
  {
    var event := Tried(act, r);
    OpenOfLonger(log, event, |log|);
    assert Distinct(loading) by { assert Distinct(Open(log, |log|)); }
    LongerStaysDistinct(log, event);
  }

  lemma LongerStaysDistinct(log: seq<Event>, event: Event)
    requires NeverWithinItself(log) && Distinct(Open(log + [event], |log| + 1))
    ensures NeverWithinItself(log + [event])
  {
    forall k | 0 <= k <= |log| + 1 ensures Distinct(Open(log + [event], k)) {
      if k <= |log| {
        OpenOfLonger(log, event, k);
      }
    }
  }

  lemma BeganKeeps(bundle: set<string>, cache: map<string, nat>, loading: seq<string>, log: seq<Event>, name: string)
    requires Sane(bundle, cache, loading, log)
    requires name in bundle && name !in cache && name !in loading
    ensures Sane(bundle, cache, loading + [name], log + [Began(name)])
  {
    var event := Began(name);
    OpenOfLonger(log, event, |log|);
    assert Open(log + [event], |log| + 1) == loading + [name];
    assert Distinct(loading) by { assert Distinct(Open(log, |log|)); }
    LongerStaysDistinct(log, event);
  }

  lemma EndedKeeps(bundle: set<string>, cache: map<string, nat>, loading: seq<string>, log: seq<Event>, name: string,
        ok: bool)
    requires Sane(bundle, cache, loading + [name], log)
    ensures Sane(bundle, if ok then cache[name := |log|] else cache, loading, log + [Ended(name, ok)])
    ensures name !in loading && name !in cache
  {
    var event := Ended(name, ok);
    var all := loading + [name];
    OpenOfLonger(log, event, |log|);
    assert all[..|all| - 1] == loading;
    assert Open(log + [event], |log| + 1) == loading;
    assert Distinct(all) by { assert Distinct(Open(log, |log|)); }
    assert all[|loading|] == name;
    assert forall i :: 0 <= i < |loading| ==> loading[i] == all[i];
    LongerStaysDistinct(log, event);
  }

  // The first i acts are taken, and all but the last went on.
  ghost predicate Taken(script: Script, tries: seq<Event>, i: nat, ok: bool) {
    && |tries| == i <= |script.acts|
    && (forall n :: 0 <= n < i ==> tries[n].Tried? && tries[n].act == script.acts[n])
    && (forall n :: 0 <= n < i - 1 ==> !Fatal(tries[n]))
    && (ok <==> i == 0 || !Fatal(tries[i - 1]))
  }

  lemma SaneSays(bundle: set<string>, cache: map<string, nat>, loading: seq<string>, log: seq<Event>)
    requires Sane(bundle, cache, loading, log)
    ensures Open(log, |log|) == loading
    ensures forall name :: name in cache ==> cache[name] < |log| && log[cache[name]] == Ended(name, true)
  {
  }

  lemma JustBegan(log: seq<Event>, name: string)
    requires log != [] && log[|log| - 1] == Began(name)
    ensures Innermost(log, |log|, |log| - 1) && Tries(log, |log| - 1, |log|) == []
  {
    NoneYet(log, |log| - 1, |log| - 1);
  }

  lemma RunsInnermost(bundle: set<string>, cache: map<string, nat>, loading: seq<string>, log: seq<Event>, name: string)
    requires Sane(bundle, cache, loading, log) && log != [] && log[|log| - 1] == Began(name)
    ensures loading != [] && loading[|loading| - 1] == name
  {
  }

  lemma StillInnermost(first: seq<Event>, before: seq<Event>, after: seq<Event>, b: nat)
    requires Innermost(first, |first|, b) && Untouched(first, before, b)
    requires b < |before| && Untouched(before, after, |before|)
    ensures Innermost(after, |after|, b) && Tries(after, b, |after|) == Tries(before, b, |before|)
  {
    hide Starts, Tries;
  }

  lemma UntouchedAgain(first: seq<Event>, before: seq<Event>, after: seq<Event>, last: seq<Event>, b: nat)
    requires b <= |before| && Untouched(first, before, b)
    requires Untouched(before, after, |before|) && Untouched(after, last, b)
    ensures Untouched(first, last, b)
  {
    hide Starts, Tries;
  }

  lemma ItIsTold(code: (string, seq<Event>) -> Script, before: seq<Event>, after: seq<Event>, name: string, ok: bool)
    requires before != [] && before[|before| - 1] == Began(name) && before <= after
    requires Untouched(before, after, |before| - 1)
    requires GoesBy(code(name, before), Tries(after, |before| - 1, |after|), ok)
    ensures Told(code, after, |after|, name, ok)
  {
    hide GoesBy, Tries, Starts;
    JustBegan(before, name);
    SamePrefix(before, after);
  }

  lemma SamePrefix(before: seq<Event>, after: seq<Event>)
    requires before <= after
    ensures after[..|before|] == before
  {
  }

  class Loader {
    const pak: bool  // false is NULL: no bundle at all
    const bundle: set<string>
    // What a run of a module does may depend on all that happened before it.
    const code: (string, seq<Event>) -> Script

    var cache: map<string, nat>
    var loading: seq<string>
    var current: string
    // Not in the source: what has happened.
    var log: seq<Event>

    constructor (pak: bool, bundle: set<string>, code: (string, seq<Event>) -> Script)
      ensures this.pak == pak && this.bundle == bundle && this.code == code
      ensures cache == map[] && loading == [] && log == []
    {
      this.pak, this.bundle, this.code := pak, bundle, code;
      cache, loading, current, log := map[], [], "", [];
    }

    ghost predicate Valid()
      reads this
    {
      Sane(bundle, cache, loading, log) && AllLawful(code, pak, bundle, log)
    }

    // A run is under way that can go on, and it is the current module's.
    ghost predicate Going()
      reads this
    {
      Ready(log, |log|) && loading != [] && loading[|loading| - 1] == current
    }

    // The modules an import could still start.
    ghost function Left(): set<string>
      reads this
    {
      bundle - set name | name in loading
    }

    // Where a module stands in an order that every import goes down in: there are
    // no cycles, nothing is missing and nothing chucks.
    ghost predicate Sound(rank: string -> nat) {
      forall name, before :: name in bundle ==> Harmless(rank, name, code(name, before))
    }

    ghost predicate Harmless(rank: string -> nat, name: string, script: Script) {
      && !script.chucks
      && forall i :: 0 <= i < |script.acts| ==> Grants(rank, name, script.acts[i])
    }

    ghost predicate Grants(rank: string -> nat, name: string, act: Act) {
      if act.std then Shipped(act.path) else pak && Descends(rank, name, act.path)
    }

    ghost predicate Descends(rank: string -> nat, name: string, path: string) {
      Resolved(name, path) in bundle && rank(Resolved(name, path)) < rank(name)
    }

    // All that is running stands above the one running now.
    ghost predicate Above(rank: string -> nat)
      reads this
    {
      forall i :: 0 <= i < |loading| ==> rank(current) <= rank(loading[i])
    }

    method LoadingIndexOf(name: string) returns (start: int)
      ensures start == -1 <==> name !in loading
      ensures start != -1 ==> 0 <= start < |loading| && loading[start] == name
    {
      for i := 0 to |loading|
        invariant name !in loading[..i]
      {
        if loading[i] == name {
          return i;
        }
      }
      return -1;
    }

    // From where the cycle starts to the module that closes it.
    method CycleFrom(start: nat, target: string) returns (chain: seq<string>)
      requires start < |loading| && loading[start] == target
      ensures |chain| == |loading| - start + 1 && chain[|chain| - 1] == chain[0] == Base(target)
      ensures forall i :: start <= i < |loading| ==> chain[i - start] == Base(loading[i])
    {
      hide Base;
      ghost var round := loading + [target];
      chain := [];
      for i := start to |loading| + 1
        invariant |chain| == i - start
        invariant forall k :: 0 <= k < |chain| ==> chain[k] == Base(round[start + k])
      {
        var name := if i < |loading| then loading[i] else target;
        chain := chain + [Base(name)];
      }
    }

    // do_import: a name of the standard library is built anew each time; a quoted path
    // needs a bundle.
    method DoImport(path: string, std: bool, ghost rank: string -> nat) returns (r: Outcome)
      requires Valid() && (pak ==> Going())
      modifies `cache, `loading, `current, `log
      ensures Valid() && loading == old(loading) && current == old(current)
      ensures old(log) <= log && Grew(old(cache), cache)
      ensures Untouched(old(log), log, |old(log)|)
      ensures old(Going()) ==> Answers(pak, bundle, log, |log|, path, std, r)
      ensures old(Going()) ==> !Fatal(log[|log| - 1])
      ensures std || !pak ==> log == old(log) && cache == old(cache)
      ensures std ==> r == if Shipped(path) then Builtin(path) else NoStdlib
      ensures !std && !pak ==> r == NotWired
      ensures !std && pak ==> (r.Module? <==> Resolved(current, path) in cache)
      ensures !std && pak ==> !r.Builtin? && !r.NoStdlib? && !r.NotWired?
      ensures !std && pak && r.Module? ==> r.made == cache[Resolved(current, path)]
      ensures Sound(rank) && Above(rank) && Grants(rank, current, Gimme(path, std, false)) ==> r.Module? || r.Builtin?
      decreases Left(), 2
    {
      hide Sane, AllLawful, Starts, Tries, Open, Resolved, Base;
      SaneSays(bundle, cache, loading, log);
      if std {
        for i := 0 to |STDLIB|
          invariant path !in STDLIB[..i]
        {
          if STDLIB[i] == path {
            return Builtin(path);
          }
        }
        assert STDLIB[..|STDLIB|] == STDLIB;
        return NoStdlib;
      }
      if !pak {
        return NotWired;
      }
      r := Import(path, rank);
    }

    // Importing a quoted path: the module if it has run, an error if it is not
    // there or is running, a run of it otherwise.
    method Import(path: string, ghost rank: string -> nat) returns (r: Outcome)
      requires Valid() && pak && Going()
      modifies `cache, `loading, `current, `log
      ensures Valid() && loading == old(loading) && current == old(current)
      ensures old(log) <= log && Grew(old(cache), cache)
      ensures Untouched(old(log), log, |old(log)|)
      ensures Answers(pak, bundle, log, |log|, path, false, r)
      ensures var target := Resolved(current, path);
              && (target in old(cache) ==> r == Module(old(cache)[target]) && log == old(log))
              && (target !in old(cache) && target !in bundle ==> r == Missing && log == old(log))
              && (target !in old(cache) && target in bundle && target in loading ==>
                    && r.Circular? && r.chain != [] && r.chain[0] == r.chain[|r.chain| - 1] == Base(target)
                    && log == old(log))
              && (target !in old(cache) && target in bundle && target !in loading ==>
                    && |log| >= |old(log)| + 2 && log[|old(log)|] == Began(target)
                    && log[|log| - 1] == Ended(target, r.Module?) && (r == Module(|log| - 1) || r == Chucked))
      ensures r.Module? <==> Resolved(current, path) in cache
      ensures r.Module? ==> r.made == cache[Resolved(current, path)]
      ensures !r.Builtin? && !r.NoStdlib? && !r.NotWired?
      ensures Sound(rank) && Above(rank) && Descends(rank, current, path) ==> r.Module?
      decreases Left(), 1
    {
      hide Resolved, Sane, AllLawful, Starts, Tries, Open, Shipped, Base;
      SaneSays(bundle, cache, loading, log);
      var target := ResolveAgainstCurrent(current, path);
      if target in cache {
        return Module(cache[target]);
      }
      if target !in bundle {
        return Missing;
      }
      var start := LoadingIndexOf(target);
      if start >= 0 {
        var chain := CycleFrom(start, target);
        return Circular(chain);
      }
      r := RunAnew(target, rank);
      SaneSays(bundle, cache, loading, log);
    }

    // A first run of a module, with its name on the loading stack meanwhile.
    method RunAnew(target: string, ghost rank: string -> nat) returns (r: Outcome)
      requires Valid() && Ready(log, |log|) && target in bundle && target !in cache && target !in loading
      modifies `cache, `loading, `current, `log
      ensures Valid() && loading == old(loading) && current == old(current)
      ensures old(log) <= log && Grew(old(cache), cache)
      ensures Untouched(old(log), log, |old(log)|)
      ensures |log| >= |old(log)| + 2 && log[|old(log)|] == Began(target)
      ensures log[|log| - 1] == Ended(target, r.Module?) && (r == Module(|log| - 1) || r == Chucked)
      ensures if r.Module? then target in cache && cache[target] == r.made else target !in cache
      ensures Sound(rank) && (forall i :: 0 <= i < |loading| ==> rank(target) <= rank(loading[i])) ==> r.Module?
      decreases Left(), 0
    {
      hide Sane, Open, Resolved, AllLawful, Starts, Tries, Told;
      BeganKeeps(bundle, cache, loading, log, target);
      BeganIsLawful(code, pak, bundle, log, target);
      ghost var asked, left := loading, Left();
      loading, log := loading + [target], log + [Began(target)];
      assert Left() < left by {
        assert forall name :: name in asked ==> name in loading;
        assert target in left && target in loading;
      }
      var ok := RunModule(target, rank);
      ItIsTold(code, old(log) + [Began(target)], log, target, ok);
      EndedKeeps(bundle, cache, asked, log, target, ok);
      EndedIsLawful(code, pak, bundle, log, target, ok);
      loading, log := loading[..|loading| - 1], log + [Ended(target, ok)];
      if ok {
        cache := cache[target := |log| - 1];
        r := Module(|log| - 1);
      } else {
        r := Chucked;
      }
    }

    // Running a module's top level, as the module imports are resolved against.
    method RunModule(name: string, ghost rank: string -> nat) returns (ok: bool)
      requires Valid() && name in bundle && log != [] && log[|log| - 1] == Began(name)
      modifies `cache, `loading, `current, `log
      ensures Valid() && loading == old(loading) && current == old(current)
      ensures old(log) <= log && Grew(old(cache), cache)
      ensures Untouched(old(log), log, |old(log)| - 1) && !log[|log| - 1].Ended?
      ensures GoesBy(code(name, old(log)), Tries(log, |old(log)| - 1, |log|), ok)
      ensures Sound(rank) && (forall i :: 0 <= i < |loading| ==> rank(name) <= rank(loading[i])) ==> ok
      decreases Left(), 3
    {
      hide Resolved, Sane, AllLawful, Starts, Tries, Answers;
      RunsInnermost(bundle, cache, loading, log, name);
      JustBegan(log, name);
      ghost var b := |log| - 1;
      var prior := current;
      current := name;
      var script := code(name, log);
      ok := true;
      var i := 0;
      while i < |script.acts| && ok
        invariant 0 <= i <= |script.acts| && current == name
        invariant Valid() && loading == old(loading)
        invariant old(log) <= log && Grew(old(cache), cache)
        invariant Untouched(old(log), log, b) && !log[|log| - 1].Ended? && (Fatal(log[|log| - 1]) ==> !ok)
        invariant Taken(script, Tries(log, b, |log|), i, ok)
        invariant Sound(rank) && Above(rank) ==> ok
        decreases |script.acts| - i
      {
        ghost var before := log;
        var r := DoImport(script.acts[i].path, script.acts[i].std, rank);
        StillInnermost(old(log), before, log, b);
        TriedKeeps(bundle, cache, loading, log, script.acts[i], r);
        TriedIsLawful(code, pak, bundle, log, b, script.acts[i], r);
        UntouchedAgain(old(log), before, log, log + [Tried(script.acts[i], r)], b);
        log := log + [Tried(script.acts[i], r)];
        ok := r.Module? || r.Builtin? || script.acts[i].caught;
        i := i + 1;
      }
      ok := ok && !script.chucks;
      current := prior;
    }
  }

  lemma NothingYet(code: (string, seq<Event>) -> Script, pak: bool, bundle: set<string>)
    ensures Sane(bundle, map[], [], []) && AllLawful(code, pak, bundle, []) && Open([], 0) == []
  {
  }

  lemma AllIsOver(bundle: set<string>, cache: map<string, nat>, log: seq<Event>)
    requires Sane(bundle, cache, [], log)
    ensures RunsOnce(log) && NeverWithinItself(log) && Open(log, |log|) == []
  {
  }

  // Running a bundle from its entry. The entry is on the loading stack like the
  // others, and never in the cache.
  method RunPak(loader: Loader, entry: string, ghost rank: string -> nat) returns (ok: bool)
    requires loader.cache == map[] && loader.loading == [] && loader.log == []
    modifies loader
    ensures RunsOnce(loader.log) && NeverWithinItself(loader.log)
    ensures AllLawful(loader.code, loader.pak, loader.bundle, loader.log)
    ensures loader.loading == [] == Open(loader.log, |loader.log|)
    ensures if entry in loader.bundle then
              && |loader.log| >= 2 && loader.log[0] == Began(entry) && loader.log[|loader.log| - 1] == Ended(entry, ok)
              && GoesBy(loader.code(entry, [Began(entry)]), Tries(loader.log, 0, |loader.log| - 1), ok)
            else
              loader.log == [] && !ok
    ensures loader.Sound(rank) && entry in loader.bundle ==> ok
  {
    hide Sane, AllLawful, Open, Starts, Tries, GoesBy, Told, Untouched, Grew, RunsOnce, NeverWithinItself, Resolved;
    NothingYet(loader.code, loader.pak, loader.bundle);
    if entry !in loader.bundle {
      return false;
    }
    loader.current := entry;
    BeganKeeps(loader.bundle, loader.cache, loader.loading, loader.log, entry);
    BeganIsLawful(loader.code, loader.pak, loader.bundle, loader.log, entry);
    loader.loading, loader.log := loader.loading + [entry], loader.log + [Began(entry)];
    ghost var begun := loader.log;
    assert begun == [Began(entry)];
    ok := loader.RunModule(entry, rank);
    ItIsTold(loader.code, begun, loader.log, entry, ok);
    EndedKeeps(loader.bundle, loader.cache, [], loader.log, entry, ok);
    EndedIsLawful(loader.code, loader.pak, loader.bundle, loader.log, entry, ok);
    TriesOfLonger(loader.log, Ended(entry, ok), 0, |loader.log|);
    loader.loading, loader.log := [], loader.log + [Ended(entry, ok)];
    AllIsOver(loader.bundle, if ok then loader.cache[entry := |loader.log| - 1] else loader.cache, loader.log);
  }

  // A module that is in the cache did all of its script, without an error that was not
  // caught, and did not chuck: one that chucks is never cached.
  lemma CachedRanThrough(code: (string, seq<Event>) -> Script, pak: bool, bundle: set<string>,
        cache: map<string, nat>, loading: seq<string>, log: seq<Event>, name: string)
    returns (b: nat)
    requires AllLawful(code, pak, bundle, log) && Agrees(cache, loading, log) && name in cache
    ensures b < cache[name] < |log| && Innermost(log, cache[name], b) && log[b] == Began(name)
    ensures var script := code(name, log[..b + 1]);
            var tries := Tries(log, b, cache[name]);
            && !script.chucks && |tries| == |script.acts|
            && forall i :: 0 <= i < |tries| ==> tries[i].Tried? && tries[i].act == script.acts[i] && !Fatal(tries[i])
  {
    var j := cache[name];
    hide Open, Starts, Tries, Resolved;
    assert Lawful(code, pak, bundle, log, j);
    b := Starts(log, j)[|Starts(log, j)| - 1];
  }

  // An error that nothing catches from there on ends all the runs under way: the last of
  // them, the entry's, fails with it.
  lemma {:induction false} UncaughtReachesEntry(code: (string, seq<Event>) -> Script, pak: bool, bundle: set<string>,
        log: seq<Event>, k: nat)
    requires AllLawful(code, pak, bundle, log) && k < |log| && log[|log| - 1].Ended?
    requires Fatal(log[k]) || (log[k].Ended? && !log[k].ok)
    requires forall i :: k < i < |log| && log[i].Tried? ==> !log[i].act.caught
    ensures !log[|log| - 1].ok
    decreases |log| - k
  {
    if k + 1 < |log| {
      assert Lawful(code, pak, bundle, log, k + 1);
      if Fatal(log[k]) {
        FailsAtOnce(code, pak, bundle, log, k + 1);
      }
      UncaughtReachesEntry(code, pak, bundle, log, k + 1);
    }
  }

  // Right after it there can only be the end of its run, as one that failed.
  lemma FailsAtOnce(code: (string, seq<Event>) -> Script, pak: bool, bundle: set<string>, log: seq<Event>, j: nat)
    requires 0 < j < |log| && Lawful(code, pak, bundle, log, j) && Fatal(log[j - 1])
    ensures log[j].Ended? && !log[j].ok
  {
    if log[j].Ended? {
      var b := Starts(log, j)[|Starts(log, j)| - 1];
      var tries := Tries(log, b, j);
      assert Starts(log, j) == Starts(log, j - 1);
      assert Fatal(tries[|tries| - 1]);
    }
  }
}

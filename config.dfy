/**
  The daemon's configuration and its validator. Validation is an ordered chain
  of checks that stops at the first failure; while it walks the rules it
  creates each rule's destination directory.
*/
module Config {
  import opened Wrappers
  import opened Paths

  datatype Rule = Rule(
    name: string,
    extensions: seq<string>,
    nameContains: seq<string>,
    nameStartsWith: seq<string>,
    destination: Path,
    conflictStrategy: string)

  datatype Monitor = Monitor(name: string, sourcePath: Path, recursive: bool, rules: seq<Rule>)

  datatype Settings = Settings(logLevel: string, delayBeforeMove: string, maxWorkers: int)

  datatype Config = Config(settings: Settings, monitors: seq<Monitor>)
}

/**
  The validator. File-system queries are supplied by an environment: the set
  of paths whose stat reports "does not exist", the set of directories whose
  creation fails, and the duration parser (Go's time.ParseDuration, giving
  nanoseconds or None on a syntax error).
*/
module Validation {
  import opened Wrappers
  import opened Paths
  import opened Config

  datatype Environment = Environment(
    parseDuration: string -> Option<int>,
    missingPaths: set<Path>,
    mkdirFails: set<Path>)

  datatype DurationError = Unparsable | Negative

  /** Which check failed; monitor and rule positions are zero-based. */
  datatype ConfigError =
    | BadLogLevel
    | BadDelay(reason: DurationError)
    | BadMaxWorkers
    | NoMonitors
    | MonitorNoName(monitor: nat)
    | SourceMissing(monitor: nat)
    | NoRules(monitor: nat)
    | RuleNoName(monitor: nat, rule: nat)
    | NoCriterion(monitor: nat, rule: nat)
    | NoDestination(monitor: nat, rule: nat)
    | BadStrategy(monitor: nat, rule: nat)
    | MkdirFailed(monitor: nat, rule: nat)

  const LogLevels: set<string> := {"debug", "info", "warn", "error"}
  const Strategies: set<string> := {"rename", "overwrite", "skip"}

  /** ParseDelayDuration: the parsed duration, refused when unparsable or negative. */
  function ParseDelayDuration(raw: string, parse: string -> Option<int>): (r: Result<int, DurationError>)
    ensures r.Ok? <==> parse(raw).Some? && parse(raw).value >= 0
    ensures r.Ok? ==> r.value == parse(raw).value
    ensures r == Err(Unparsable) <==> parse(raw).None?
    ensures r == Err(Negative) <==> parse(raw).Some? && parse(raw).value < 0
  {
    match parse(raw)
    case None => Err(Unparsable)
    case Some(d) => if d < 0 then Err(Negative) else Ok(d)
  }

  /** The global checks, in their order: log level, delay, worker count. */
  function CheckSettings(s: Settings, env: Environment): (r: Option<ConfigError>)
    ensures r.None? <==>
      s.logLevel in LogLevels && ParseDelayDuration(s.delayBeforeMove, env.parseDuration).Ok? && s.maxWorkers > 0
    ensures r.Some? ==> r.value in {BadLogLevel, BadDelay(Unparsable), BadDelay(Negative), BadMaxWorkers}
    ensures s.logLevel !in LogLevels ==> r == Some(BadLogLevel)
    ensures s.logLevel in LogLevels && ParseDelayDuration(s.delayBeforeMove, env.parseDuration).Err? ==>
      r == Some(BadDelay(ParseDelayDuration(s.delayBeforeMove, env.parseDuration).error))
    ensures s.logLevel in LogLevels && ParseDelayDuration(s.delayBeforeMove, env.parseDuration).Ok? && s.maxWorkers <= 0 ==>
      r == Some(BadMaxWorkers)
  {
    if s.logLevel !in LogLevels then Some(BadLogLevel)
    else match ParseDelayDuration(s.delayBeforeMove, env.parseDuration)
      case Err(e) => Some(BadDelay(e))
      case Ok(_) => if s.maxWorkers <= 0 then Some(BadMaxWorkers) else None
  }

  /** The checks on a monitor's own fields: name, source path, rule list. */
  function CheckMonitor(m: Monitor, i: nat, env: Environment): (r: Option<ConfigError>)
    ensures r.None? <==> m.name != "" && m.sourcePath !in env.missingPaths && m.rules != []
    ensures r.Some? ==> r.value in {MonitorNoName(i), SourceMissing(i), NoRules(i)}
    ensures m.name == "" ==> r == Some(MonitorNoName(i))
    ensures m.name != "" && m.sourcePath in env.missingPaths ==> r == Some(SourceMissing(i))
    ensures m.name != "" && m.sourcePath !in env.missingPaths && m.rules == [] ==> r == Some(NoRules(i))
  {
    if m.name == "" then Some(MonitorNoName(i))
    else if m.sourcePath in env.missingPaths then Some(SourceMissing(i))
    else if m.rules == [] then Some(NoRules(i))
    else None
  }

  /** The checks on one rule's fields, before its destination is created. */
  function CheckRule(r: Rule, i: nat, j: nat): (res: Option<ConfigError>)
    ensures res.None? <==>
      r.name != "" && (r.extensions != [] || r.nameContains != [] || r.nameStartsWith != []) &&
      r.destination != "" && r.conflictStrategy in Strategies
    ensures res.Some? ==> res.value in {RuleNoName(i, j), NoCriterion(i, j), NoDestination(i, j), BadStrategy(i, j)}
    ensures r.name == "" ==> res == Some(RuleNoName(i, j))
    ensures r.name != "" && r.extensions == [] && r.nameContains == [] && r.nameStartsWith == [] ==>
      res == Some(NoCriterion(i, j))
    ensures (r.name != "" && (r.extensions != [] || r.nameContains != [] || r.nameStartsWith != []) &&
             r.destination == "") ==> res == Some(NoDestination(i, j))
    ensures (r.name != "" && (r.extensions != [] || r.nameContains != [] || r.nameStartsWith != []) &&
             r.destination != "" && r.conflictStrategy !in Strategies) ==> res == Some(BadStrategy(i, j))
  {
    if r.name == "" then Some(RuleNoName(i, j))
    else if r.extensions == [] && r.nameContains == [] && r.nameStartsWith == [] then Some(NoCriterion(i, j))
    else if r.destination == "" then Some(NoDestination(i, j))
    else if r.conflictStrategy !in Strategies then Some(BadStrategy(i, j))
    else None
  }

  /** The first failing check of a rule, its directory creation included. */
  function RuleFailure(r: Rule, i: nat, j: nat, env: Environment): (res: Option<ConfigError>)
    ensures res.None? <==> CheckRule(r, i, j).None? && r.destination !in env.mkdirFails
    ensures CheckRule(r, i, j).Some? ==> res == CheckRule(r, i, j)
    ensures CheckRule(r, i, j).None? && r.destination in env.mkdirFails ==> res == Some(MkdirFailed(i, j))
  {
    if CheckRule(r, i, j).Some? then CheckRule(r, i, j)
    else if r.destination in env.mkdirFails then Some(MkdirFailed(i, j))
    else None
  }

  /**
    Specification of the rule loop of monitor `i` from rule `j` on: the first
    failure, if any, and the directories created so far (`acc` and then, in
    order, the destination of each rule that passed).
  */
  function RulesFrom(m: Monitor, i: nat, j: nat, env: Environment, acc: seq<Path>): (r: (Option<ConfigError>, seq<Path>))
    requires j <= |m.rules|
    ensures acc <= r.1
    ensures |r.1| <= |acc| + |m.rules| - j
    ensures r.0.None? ==> |r.1| == |acc| + |m.rules| - j
    decreases |m.rules| - j
  {
    if j == |m.rules| then (None, acc)
    else
      var f := RuleFailure(m.rules[j], i, j, env);
      if f.Some? then (f, acc)
      else RulesFrom(m, i, j + 1, env, acc + [m.rules[j].destination])
  }

  /** Specification of the monitor loop from monitor `i` on. */
  function MonitorsFrom(ms: seq<Monitor>, i: nat, env: Environment, acc: seq<Path>): (r: (Option<ConfigError>, seq<Path>))
    requires i <= |ms|
    ensures acc <= r.1
    decreases |ms| - i
  {
    if i == |ms| then (None, acc)
    else if CheckMonitor(ms[i], i, env).Some? then (CheckMonitor(ms[i], i, env), acc)
    else
      var (e, created) := RulesFrom(ms[i], i, 0, env, acc);
      if e.Some? then (e, created) else MonitorsFrom(ms, i + 1, env, created)
  }

  /** Specification of Validate: the first failure and the directories created. */
  function ValidateSpec(c: Config, env: Environment): (r: (Option<ConfigError>, seq<Path>))
    ensures r.0.None? ==> CheckSettings(c.settings, env).None? && c.monitors != []
    ensures CheckSettings(c.settings, env).Some? || c.monitors == [] ==> r.1 == []
  {
    if CheckSettings(c.settings, env).Some? then (CheckSettings(c.settings, env), [])
    else if c.monitors == [] then (Some(NoMonitors), [])
    else MonitorsFrom(c.monitors, 0, env, [])
  }

  /** Validate: the check chain, creating each passing rule's destination as it goes. */
  method Validate(c: Config, env: Environment) returns (err: Option<ConfigError>, created: seq<Path>)
    ensures (err, created) == ValidateSpec(c, env)
  {
    created := [];
    err := CheckSettings(c.settings, env);
    if err.Some? {
      return;
    }
    if |c.monitors| == 0 {
      err := Some(NoMonitors);
      return;
    }
    var i := 0;
    while i < |c.monitors|
      invariant 0 <= i <= |c.monitors|
      invariant ValidateSpec(c, env) == MonitorsFrom(c.monitors, i, env, created)
    {
      var m := c.monitors[i];
      err := CheckMonitor(m, i, env);
      if err.Some? {
        return;
      }
      ghost var before := created;
      var j := 0;
      while j < |m.rules|
        invariant 0 <= j <= |m.rules|
        invariant RulesFrom(m, i, 0, env, before) == RulesFrom(m, i, j, env, created)
      {
        var rule := m.rules[j];
        err := CheckRule(rule, i, j);
        if err.Some? {
          return;
        }
        if rule.destination in env.mkdirFails {
          err := Some(MkdirFailed(i, j));
          return;
        }
        created := created + [rule.destination];
        j := j + 1;
      }
      i := i + 1;
    }
    err := None;
  }

  // ---------------------------------------------------------------------------
  // Properties of the check chain

  predicate RuleOk(r: Rule, i: nat, j: nat, env: Environment) {
    RuleFailure(r, i, j, env).None?
  }

  predicate MonitorOk(m: Monitor, i: nat, env: Environment) {
    CheckMonitor(m, i, env).None? && forall j :: 0 <= j < |m.rules| ==> RuleOk(m.rules[j], i, j, env)
  }

  /** Every check passes. */
  predicate ConfigOk(c: Config, env: Environment) {
    CheckSettings(c.settings, env).None? && c.monitors != [] &&
    forall i :: 0 <= i < |c.monitors| ==> MonitorOk(c.monitors[i], i, env)
  }

  /** The destinations of all rules of the monitors from `from` on, in loop order. */
  function DestinationsFrom(ms: seq<Monitor>, from: nat): seq<Path>
    requires from <= |ms|
    decreases |ms| - from
  {
    if from == |ms| then [] else RuleDestinations(ms[from].rules) + DestinationsFrom(ms, from + 1)
  }

  function RuleDestinations(rules: seq<Rule>): (r: seq<Path>)
    ensures |r| == |rules| && forall j :: 0 <= j < |rules| ==> r[j] == rules[j].destination
  {
    if rules == [] then [] else RuleDestinations(rules[..|rules| - 1]) + [rules[|rules| - 1].destination]
  }

  lemma {:induction false} RulesFromOk(m: Monitor, i: nat, j: nat, env: Environment, acc: seq<Path>)
    requires j <= |m.rules|
    ensures RulesFrom(m, i, j, env, acc).0.None? <==> forall k :: j <= k < |m.rules| ==> RuleOk(m.rules[k], i, k, env)
    ensures RulesFrom(m, i, j, env, acc).0.None? ==>
      RulesFrom(m, i, j, env, acc).1 == acc + RuleDestinations(m.rules)[j..]
    decreases |m.rules| - j
  {
    if j < |m.rules| {
      var acc' := acc + [m.rules[j].destination];
      RulesFromOk(m, i, j + 1, env, acc');
      if RuleOk(m.rules[j], i, j, env) {
        assert RulesFrom(m, i, j, env, acc) == RulesFrom(m, i, j + 1, env, acc');
        var ds := RuleDestinations(m.rules);
        assert ds[j..] == [ds[j]] + ds[j + 1..];
        assert acc' + ds[j + 1..] == acc + ds[j..];
      } else {
        assert RulesFrom(m, i, j, env, acc).0.Some?;
      }
    }
  }

  lemma {:induction false} MonitorsFromOk(ms: seq<Monitor>, i: nat, env: Environment, acc: seq<Path>)
    requires i <= |ms|
    ensures MonitorsFrom(ms, i, env, acc).0.None? <==> forall k :: i <= k < |ms| ==> MonitorOk(ms[k], k, env)
    ensures MonitorsFrom(ms, i, env, acc).0.None? ==>
      MonitorsFrom(ms, i, env, acc).1 == acc + DestinationsFrom(ms, i)
    decreases |ms| - i
  {
    if i < |ms| {
      if CheckMonitor(ms[i], i, env).None? {
        RulesFromOk(ms[i], i, 0, env, acc);
        var (e, created) := RulesFrom(ms[i], i, 0, env, acc);
        if e.None? {
          MonitorsFromOk(ms, i + 1, env, created);
          var rd := RuleDestinations(ms[i].rules);
          assert rd[0..] == rd;
          assert created == acc + rd;
          assert MonitorsFrom(ms, i, env, acc) == MonitorsFrom(ms, i + 1, env, created);
          assert DestinationsFrom(ms, i) == rd + DestinationsFrom(ms, i + 1);
          assert acc + rd + DestinationsFrom(ms, i + 1) == acc + (rd + DestinationsFrom(ms, i + 1));
        }
      }
    }
  }

  /** Validate succeeds exactly when every check passes. */
  lemma ValidateSucceedsIff(c: Config, env: Environment)
    ensures ValidateSpec(c, env).0.None? <==> ConfigOk(c, env)
  {
    if CheckSettings(c.settings, env).None? && c.monitors != [] {
      MonitorsFromOk(c.monitors, 0, env, []);
    }
  }

  /** On success every rule's destination directory has been created, in rule order. */
  lemma ValidateCreatesAllDestinations(c: Config, env: Environment)
    requires ValidateSpec(c, env).0.None?
    ensures ValidateSpec(c, env).1 == DestinationsFrom(c.monitors, 0)
    ensures forall i, j :: 0 <= i < |c.monitors| && 0 <= j < |c.monitors[i].rules| ==>
      c.monitors[i].rules[j].destination in ValidateSpec(c, env).1
  {
    MonitorsFromOk(c.monitors, 0, env, []);
    forall i, j | 0 <= i < |c.monitors| && 0 <= j < |c.monitors[i].rules|
      ensures c.monitors[i].rules[j].destination in DestinationsFrom(c.monitors, 0)
    {
      DestinationListed(c.monitors, 0, i, j);
    }
  }

  lemma {:induction false} DestinationListed(ms: seq<Monitor>, from: nat, i: nat, j: nat)
    requires from <= i < |ms| && j < |ms[i].rules|
    ensures ms[i].rules[j].destination in DestinationsFrom(ms, from)
    decreases i - from
  {
    if from < i {
      DestinationListed(ms, from + 1, i, j);
    } else {
      assert RuleDestinations(ms[i].rules)[j] == ms[i].rules[j].destination;
    }
  }

  /** The error a failing monitor reports: its own check, or the first failing rule's. */
  ghost predicate MonitorReports(m: Monitor, i: nat, env: Environment, e: ConfigError) {
    (CheckMonitor(m, i, env).Some? && CheckMonitor(m, i, env) == Some(e)) ||
    (CheckMonitor(m, i, env).None? &&
     exists j :: (0 <= j < |m.rules| && (forall k :: 0 <= k < j ==> RuleOk(m.rules[k], i, k, env)) &&
       RuleFailure(m.rules[j], i, j, env) == Some(e)))
  }

  lemma {:induction false} RulesFromFirstFailure(m: Monitor, i: nat, j: nat, env: Environment, acc: seq<Path>)
    requires j <= |m.rules| && RulesFrom(m, i, j, env, acc).0.Some?
    requires forall k :: 0 <= k < j ==> RuleOk(m.rules[k], i, k, env)
    ensures exists n :: (j <= n < |m.rules| && (forall k :: 0 <= k < n ==> RuleOk(m.rules[k], i, k, env)) &&
      RuleFailure(m.rules[n], i, n, env) == RulesFrom(m, i, j, env, acc).0)
    decreases |m.rules| - j
  {
    if RuleFailure(m.rules[j], i, j, env).None? {
      RulesFromFirstFailure(m, i, j + 1, env, acc + [m.rules[j].destination]);
    }
  }

  lemma {:induction false} MonitorsFromFirstFailure(ms: seq<Monitor>, i: nat, env: Environment, acc: seq<Path>)
    requires i <= |ms| && MonitorsFrom(ms, i, env, acc).0.Some?
    requires forall k :: 0 <= k < i ==> MonitorOk(ms[k], k, env)
    ensures exists n :: (i <= n < |ms| && (forall k :: 0 <= k < n ==> MonitorOk(ms[k], k, env)) &&
      MonitorReports(ms[n], n, env, MonitorsFrom(ms, i, env, acc).0.value))
    decreases |ms| - i
  {
    var e := MonitorsFrom(ms, i, env, acc).0.value;
    if CheckMonitor(ms[i], i, env).None? {
      var (re, created) := RulesFrom(ms[i], i, 0, env, acc);
      if re.Some? {
        RulesFromFirstFailure(ms[i], i, 0, env, acc);
        assert MonitorReports(ms[i], i, env, e);
      } else {
        RulesFromOk(ms[i], i, 0, env, acc);
        assert MonitorOk(ms[i], i, env);
        MonitorsFromFirstFailure(ms, i + 1, env, created);
      }
    }
  }

  /**
    Validate reports the first failing check in its fixed order: settings, then
    the monitor list, then each monitor's own checks followed by its rules'.
  */
  lemma ValidateReportsFirstFailure(c: Config, env: Environment)
    requires ValidateSpec(c, env).0.Some?
    ensures CheckSettings(c.settings, env).Some? ==> ValidateSpec(c, env).0 == CheckSettings(c.settings, env)
    ensures CheckSettings(c.settings, env).None? && c.monitors == [] ==> ValidateSpec(c, env).0 == Some(NoMonitors)
    ensures CheckSettings(c.settings, env).None? && c.monitors != [] ==>
      exists i :: (0 <= i < |c.monitors| && (forall k :: 0 <= k < i ==> MonitorOk(c.monitors[k], k, env)) &&
        MonitorReports(c.monitors[i], i, env, ValidateSpec(c, env).0.value))
  {
    if CheckSettings(c.settings, env).None? && c.monitors != [] {
      MonitorsFromFirstFailure(c.monitors, 0, env, []);
    }
  }

  /** Log levels are compared exactly: an upper-case spelling is refused. */
  lemma LogLevelIsCaseSensitive(c: Config, env: Environment)
    requires c.settings.logLevel == "DEBUG"
    ensures ValidateSpec(c, env).0 == Some(BadLogLevel)
  {
    assert "DEBUG" != "debug";
  }

  /** A zero delay is accepted and a negative one refused. */
  lemma DelaySign(raw: string, parse: string -> Option<int>)
    ensures parse(raw) == Some(0) ==> ParseDelayDuration(raw, parse) == Ok(0)
    ensures parse(raw).Some? && parse(raw).value < 0 ==> ParseDelayDuration(raw, parse) == Err(Negative)
  {
  }
}

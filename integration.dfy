/**
  How the validator's guarantees meet the matcher's and the mover's
  expectations: two configurations the validator accepts whose rules the
  rest of the program cannot act on.
*/
module Integration {
  import opened Wrappers
  import opened Paths
  import opened Config
  import opened Validation
  import Rules
  import Mover

  /** An environment in which every duration parses to zero and every path exists and can be created. */
  predicate Permissive(env: Environment) {
    env.parseDuration("0s") == Some(0) && env.missingPaths == {} && env.mkdirFails == {}
  }

  function OneRuleConfig(r: Rule): Config {
    Config(Settings("info", "0s", 1), [Monitor("inbox", "/in", false, [r])])
  }

  lemma OneRuleConfigValid(r: Rule, env: Environment)
    requires Permissive(env) && RuleOk(r, 0, 0, env)
    ensures ValidateSpec(OneRuleConfig(r), env).0.None?
  {
    var c := OneRuleConfig(r);
    assert MonitorOk(c.monitors[0], 0, env);
    ValidateSucceedsIff(c, env);
  }

  /**
    The validator accepts the "skip" strategy, but the mover's conflict
    handler knows only "rename" and "overwrite": every conflict under such a
    rule ends in an unknown-strategy error.
  */
  lemma SkipValidatesButCannotMove(env: Environment, unique: Path)
    requires Permissive(env)
    ensures ValidateSpec(OneRuleConfig(Rule("pdfs", [".pdf"], [], [], "/out", "skip")), env).0.None?
    ensures Mover.HandleConflict("/out/a.pdf", "skip", unique) == Err(Mover.UnknownStrategy("skip"))
  {
    OneRuleConfigValid(Rule("pdfs", [".pdf"], [], [], "/out", "skip"), env);
  }

  /**
    The validator accepts a rule whose only criterion is a name substring,
    but the matcher reads only extensions: such a rule matches no file.
  */
  lemma NameOnlyRuleValidatesButNeverMatches(env: Environment, filePath: Path)
    requires Permissive(env)
    ensures ValidateSpec(OneRuleConfig(Rule("invoices", [], ["invoice"], [], "/out", "rename")), env).0.None?
    ensures Rules.MatchRule(filePath, [Rule("invoices", [], ["invoice"], [], "/out", "rename")]).None?
  {
    OneRuleConfigValid(Rule("invoices", [], ["invoice"], [], "/out", "rename"), env);
    Rules.EmptyExtensionsNeverMatch(filePath, [Rule("invoices", [], ["invoice"], [], "/out", "rename")], 0);
  }
}

/** Credentials as the inventory holds them, and the calls their rules cover
    (internal/credential/credential.go). */
module Credentials {
  import opened Text
  import opened Glob
  import opened Net

  datatype Option<+T> = None | Some(value: T)

  /** The states the API publishes; Other is any text it does not. */
  datatype Status = Expired | PendingValidation | Refused | Validated | Other(text: string)

  datatype AccessRule = AccessRule(verb: string, path: string)

  datatype Application = Application(id: int, key: string, name: string, description: string,
                                     external: bool, deleted: bool)

  /** Moments are nanoseconds on one clock; None is the zero time of the source. */
  datatype Credential = Credential(
    id: int,
    application: Application,
    status: Status,
    rules: seq<AccessRule>,
    allowed: seq<Prefix>,
    createdAt: Option<int>,
    expiresAt: Option<int>,
    lastUsedAt: Option<int>,
    issuedBySupport: bool)

  /** Some rule is for this method, letter case aside, and its language holds the path. */
  ghost predicate Permitted(rules: seq<AccessRule>, verb: string, path: string) {
    exists i :: 0 <= i < |rules| && EqualFold(rules[i].verb, verb) && Matches(rules[i].path, path)
  }

  method Permits(c: Credential, verb: string, path: string) returns (permitted: bool)
    ensures permitted <==> Permitted(c.rules, verb, path)
  {
    for i := 0 to |c.rules|
      invariant !Permitted(c.rules[..i], verb, path)
    {
      var rule := c.rules[i];
      var matched := MatchPath(rule.path, path);
      if EqualFold(rule.verb, verb) && matched {
        return true;
      }
    }
    assert c.rules[..|c.rules|] == c.rules;
    return false;
  }
}

/** Administrative route rules (lib/graph/rules.ts). */
module Rules {
  import opened Core

  /** One ordered pair `{from, to}` that may not be connected. */
  datatype BlockedPair = BlockedPair(from: string, to: string)

  /** `RouteRules`: both fields are optional in the configuration document. */
  datatype RouteRules = RouteRules(allowLoops: Option<bool>, blockedPairs: Option<seq<BlockedPair>>)

  /** `Array.prototype.some` over the blocked pairs: does one of them match `(fromId, toId)` exactly? */
  function AnyMatches(pairs: seq<BlockedPair>, fromId: string, toId: string): (b: bool)
    ensures b <==> exists i :: 0 <= i < |pairs| && pairs[i].from == fromId && pairs[i].to == toId
  {
    if pairs == [] then false
    else (pairs[0].from == fromId && pairs[0].to == toId) || AnyMatches(pairs[1..], fromId, toId)
  }

  /** `isBlocked(rules, fromId, toId)`: absent rules and absent pairs block nothing. */
  function IsBlocked(rules: Option<RouteRules>, fromId: string, toId: string): (b: bool)
    ensures b <==> rules.Some? && rules.value.blockedPairs.Some?
                   && BlockedPair(fromId, toId) in rules.value.blockedPairs.value
  {
    match rules
    case None => false
    case Some(r) =>
      match r.blockedPairs
      case None => false
      case Some(pairs) => AnyMatches(pairs, fromId, toId)
  }

  /** `!rules?.allowLoops`: cycle prevention is on unless the rules say `allowLoops: true`. */
  predicate LoopsAllowed(rules: Option<RouteRules>)
  {
    rules.Some? && rules.value.allowLoops == Some(true)
  }

  /** Matching is ordered: blocking `(a, b)` says nothing about `(b, a)`. */
  lemma BlockingIsOrdered(pairs: seq<BlockedPair>, a: string, b: string)
    requires a != b
    ensures var rules := Some(RouteRules(None, Some(pairs + [BlockedPair(a, b)])));
      IsBlocked(rules, a, b) && (IsBlocked(rules, b, a) <==> BlockedPair(b, a) in pairs)
  {
    var rules := Some(RouteRules(None, Some(pairs + [BlockedPair(a, b)])));
    assert (pairs + [BlockedPair(a, b)])[|pairs|] == BlockedPair(a, b);
  }

  /** Whether loops are allowed has no bearing on what is blocked. */
  lemma BlockingIgnoresAllowLoops(r: RouteRules, allow: Option<bool>, a: string, b: string)
    ensures IsBlocked(Some(r), a, b) == IsBlocked(Some(r.(allowLoops := allow)), a, b)
  {
  }
}

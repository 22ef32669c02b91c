/** internal/policy/policy.go: who may be issued what. */
module Policy {
  import opened Basics
  import opened Text
  import opened Sorting

  const WILDCARD: bytes := Ascii("*")

  /** An absent extension list inherits the default; an empty one means none. */
  datatype Rule = Rule(
    principals: seq<bytes>,
    maxTTL: bytes,
    extensions: Option<seq<bytes>>,
    sourceAddress: seq<bytes>,
    forceCommand: bytes)

  datatype Document = Document(version: int, defaults: Rule, users: map<bytes, Rule>)

  /** Durations are in nanoseconds. */
  datatype Grant = Grant(
    user: bytes,
    principals: seq<bytes>,
    ttl: i64,
    maxTTL: i64,
    extensions: seq<bytes>,
    sourceAddress: seq<bytes>,
    forceCommand: bytes)

  datatype Denial =
    | UnknownUser
    | NothingByName
    | InvalidPrincipal(principal: bytes)
    | NotAllowed(principal: bytes)
    | TooLong

  datatype Decision = Granted(grant: Grant) | Denied(reason: Denial)

  /** time.ParseDuration, and the two netip parsers. */
  datatype Library = Library(parseDuration: bytes -> Option<i64>, isAddress: bytes -> bool)

  const DAY: int := 86_400_000_000_000
  const FALLBACK_MAX_TTL: i64 := 28_800_000_000_000

  /** Go's int64 arithmetic keeps the low 64 bits. */
  function WrapI64(x: int): i64 {
    if ToU64(x) < 0x8000_0000_0000_0000 then ToU64(x) else ToU64(x) - TWO_TO_64
  }

  // ---------------------------------------------------------------------
  // Durations
  // ---------------------------------------------------------------------

  predicate IsDigit(c: byte) {
    '0' as int <= c <= '9' as int
  }

  function DecimalValue(s: bytes): (r: Option<nat>)
    ensures r.Some? <==> forall i :: 0 <= i < |s| ==> IsDigit(s[i])
  {
    if s == [] then Some(0)
    else
      var front := s[..|s| - 1];
      assert s == front + [s[|s| - 1]];
      match DecimalValue(front)
      case None => None
      case Some(n) => if IsDigit(s[|s| - 1]) then Some(10 * n + (s[|s| - 1] - '0' as int)) else None
  }

  /** strconv.Atoi: an optional sign, at least one digit, and a value that fits an int64. */
  function Atoi(s: bytes): Option<i64> {
    var signed := s != [] && (s[0] == '-' as int || s[0] == '+' as int);
    var digits := if signed then s[1..] else s;
    if digits == [] then None
    else
      match DecimalValue(digits)
      case None => None
      case Some(n) =>
        var size: int := n;
        var v := if signed && s[0] == '-' as int then -size else size;
        if -0x8000_0000_0000_0000 <= v < 0x8000_0000_0000_0000 then Some(v) else None
  }

  function ParseTTL(lib: Library, s: bytes): Option<i64> {
    if s == [] then None
    else
      match CutSuffix(s, Ascii("d"))
      case Some(days) =>
        (match Atoi(days)
         case None => None
         case Some(n) => if n <= 0 then None else Some(WrapI64(WrapI64(n * 24) * 3_600_000_000_000)))
      case None =>
        (match lib.parseDuration(s)
         case None => None
         case Some(d) => if d <= 0 then None else Some(d))
  }

  const MAX_DAYS: int := 106751

  /** That many days are positive as an int64 number of nanoseconds. */
  predicate PositiveDays(n: int) {
    0 < (n * DAY) % TWO_TO_64 < 0x8000_0000_0000_0000
  }

  /**
   * A whole number of days is that many days exactly up to 106751; from there on the product wraps,
   * and what it wraps to is positive exactly when the low 64 bits are.
   */
  lemma DayTTLExact(lib: Library, days: bytes, n: int)
    requires Atoi(days) == Some(n) && n > 0
    ensures ParseTTL(lib, days + Ascii("d")).Some?
    ensures ParseTTL(lib, days + Ascii("d")) == Some(n * DAY) <==> n <= MAX_DAYS
    ensures ParseTTL(lib, days + Ascii("d")).value > 0 <==> PositiveDays(n)
    ensures n <= MAX_DAYS ==> PositiveDays(n)
  {
    hide Atoi, CutSuffix;
    CutDay(days);
    assert days + Ascii("d") != [];
    WrapOfWrap(n * 24, 3_600_000_000_000);
    assert n * 24 * 3_600_000_000_000 == n * DAY;
  }

  lemma CutDay(days: bytes)
    ensures CutSuffix(days + Ascii("d"), Ascii("d")) == Some(days)
  {
    var s := days + Ascii("d");
    assert s[|s| - 1..] == Ascii("d");
    assert s[..|s| - 1] == days;
  }

  lemma WrapOfWrap(x: int, m: int)
    ensures WrapI64(WrapI64(x) * m) == WrapI64(x * m)
  {
    var k := (x - WrapI64(x)) / TWO_TO_64;
    assert x == WrapI64(x) + TWO_TO_64 * k;
    assert x * m == WrapI64(x) * m + TWO_TO_64 * (k * m) by {
      assert (TWO_TO_64 * k) * m == TWO_TO_64 * (k * m);
    }
    ModPlusMultiple(WrapI64(x) * m, k * m);
  }

  lemma ModPlusMultiple(a: int, k: int)
    ensures ToU64(a + TWO_TO_64 * k) == ToU64(a)
  {
  }

  lemma DaysTooMany()
    ensures Atoi(Ascii("106752")) == Some(106752)
  {
    var days := Ascii("106752");
    var d1, d2, d3, d4, d5 := days[..1], days[..2], days[..3], days[..4], days[..5];
    assert d1[..0] == [] && d2[..1] == d1 && d3[..2] == d2 && d4[..3] == d3 && d5[..4] == d4 && days[..5] == d5;
    assert DecimalValue(d1) == Some(1);
    assert DecimalValue(d2) == Some(10);
    assert DecimalValue(d3) == Some(106);
    assert DecimalValue(d4) == Some(1067);
    assert DecimalValue(d5) == Some(10675);
    assert DecimalValue(days) == Some(106752);
  }

  /** "106752d" is accepted and means a negative duration. */
  lemma DayTTLCanBeNegative(lib: Library)
    ensures ParseTTL(lib, Ascii("106752d")).Some?
    ensures ParseTTL(lib, Ascii("106752d")).value == 106752 * DAY - TWO_TO_64 < 0
  {
    hide Atoi;
    var days := Ascii("106752");
    assert Ascii("106752d") == days + Ascii("d");
    DaysTooMany();
    CutDay(days);
  }

  // ---------------------------------------------------------------------
  // Validation
  // ---------------------------------------------------------------------

  predicate IsPrincipalByte(c: byte) {
    || 'A' as int <= c <= 'Z' as int || 'a' as int <= c <= 'z' as int || IsDigit(c)
    || c == '.' as int || c == '_' as int || c == '@' as int || c == '+' as int || c == '-' as int
  }

  /** The pattern for user names and principals. */
  predicate Matches(s: bytes) {
    s != [] && forall i :: 0 <= i < |s| ==> IsPrincipalByte(s[i])
  }

  predicate ValidExtension(s: bytes) {
    s != [] && forall i :: 0 <= i < |s| ==> s[i] != 32 && s[i] != 9 && s[i] != 10
  }

  predicate ValidRule(lib: Library, r: Rule) {
    && (forall i :: 0 <= i < |r.principals| ==> r.principals[i] == WILDCARD || Matches(r.principals[i]))
    && (r.maxTTL != [] ==> ParseTTL(lib, r.maxTTL).Some?)
    && (r.extensions.Some? ==> forall i :: 0 <= i < |r.extensions.value| ==> ValidExtension(r.extensions.value[i]))
    && (forall i :: 0 <= i < |r.sourceAddress| ==> lib.isAddress(r.sourceAddress[i]))
  }

  predicate ValidDocument(lib: Library, p: Document) {
    && p.version == 1
    && ValidRule(lib, p.defaults)
    && p.defaults.principals == []
    && (forall user :: user in p.users ==> Matches(user) && ValidRule(lib, p.users[user]))
  }

  method ValidateRule(lib: Library, r: Rule) returns (ok: bool)
    ensures ok <==> ValidRule(lib, r)
  {
    hide ParseTTL, Matches, ValidExtension;
    for i := 0 to |r.principals|
      invariant forall k :: 0 <= k < i ==> r.principals[k] == WILDCARD || Matches(r.principals[k])
    {
      if r.principals[i] != WILDCARD && !Matches(r.principals[i]) {
        return false;
      }
    }
    if |r.maxTTL| > 0 {
      var d := ParseTTL(lib, r.maxTTL);
      if d == None {
        return false;
      }
    }
    if r.extensions.Some? {
      var exts := r.extensions.value;
      for i := 0 to |exts|
        invariant forall k :: 0 <= k < i ==> ValidExtension(exts[k])
      {
        if !ValidExtension(exts[i]) {
          return false;
        }
      }
    }
    for i := 0 to |r.sourceAddress|
      invariant forall k :: 0 <= k < i ==> lib.isAddress(r.sourceAddress[k])
    {
      if !lib.isAddress(r.sourceAddress[i]) {
        return false;
      }
    }
    ok := true;
  }

  /** The users are visited in no particular order. */
  method Validate(lib: Library, p: Document) returns (ok: bool)
    ensures ok <==> ValidDocument(lib, p)
  {
    hide Matches, ValidRule;
    if p.version != 1 {
      return false;
    }
    var defaultsOk := ValidateRule(lib, p.defaults);
    if !defaultsOk || |p.defaults.principals| > 0 {
      return false;
    }
    var todo := p.users.Keys;
    while todo != {}
      invariant todo <= p.users.Keys
      invariant forall user :: user in p.users && user !in todo ==> Matches(user) && ValidRule(lib, p.users[user])
      decreases todo
    {
      var user :| user in todo;
      if !Matches(user) {
        return false;
      }
      var ruleOk := ValidateRule(lib, p.users[user]);
      if !ruleOk {
        return false;
      }
      todo := todo - {user};
    }
    ok := true;
  }

  // ---------------------------------------------------------------------
  // The effective rule
  // ---------------------------------------------------------------------

  /** A user's rule over the defaults, field by field; principals are never inherited. */
  function Merged(user: Rule, defaults: Rule): Rule {
    Rule(
      user.principals,
      if user.maxTTL == [] then defaults.maxTTL else user.maxTTL,
      if user.extensions == None then defaults.extensions else user.extensions,
      if user.sourceAddress == [] then defaults.sourceAddress else user.sourceAddress,
      if user.forceCommand == [] then defaults.forceCommand else user.forceCommand)
  }

  method Resolve(p: Document, user: bytes) returns (r: Option<Rule>)
    ensures r == if user in p.users then Some(Merged(p.users[user], p.defaults)) else None
  {
    if user !in p.users {
      return None;
    }
    var eff := p.users[user];
    if |eff.maxTTL| == 0 {
      eff := eff.(maxTTL := p.defaults.maxTTL);
    }
    if eff.extensions == None {
      eff := eff.(extensions := p.defaults.extensions);
    }
    if |eff.sourceAddress| == 0 {
      eff := eff.(sourceAddress := p.defaults.sourceAddress);
    }
    if |eff.forceCommand| == 0 {
      eff := eff.(forceCommand := p.defaults.forceCommand);
    }
    return Some(eff);
  }

  /** The cap of an effective rule. */
  function MaxTTL(lib: Library, r: Rule): i64 {
    if r.maxTTL == [] then FALLBACK_MAX_TTL else ParseTTL(lib, r.maxTTL).GetOr(0)
  }

  /** What a rule offers, before anything is requested. */
  function Offer(lib: Library, user: bytes, r: Rule): Grant {
    Grant(user, r.principals, 0, MaxTTL(lib, r), r.extensions.GetOr([]), r.sourceAddress, r.forceCommand)
  }

  method Describe(lib: Library, p: Document, user: bytes) returns (g: Option<Grant>)
    ensures g == if user in p.users then Some(Offer(lib, user, Merged(p.users[user], p.defaults))) else None
  {
    hide ParseTTL;
    var eff := Resolve(p, user);
    if eff == None {
      return None;
    }
    var r := eff.value;
    var grant := Grant(user, r.principals, 0, FALLBACK_MAX_TTL, [], r.sourceAddress, r.forceCommand);
    if |r.maxTTL| > 0 {
      var d := ParseTTL(lib, r.maxTTL);
      grant := grant.(maxTTL := if d.Some? then d.value else 0);
    }
    if r.extensions.Some? {
      grant := grant.(extensions := r.extensions.value);
    }
    return Some(grant);
  }

  // ---------------------------------------------------------------------
  // Authorization
  // ---------------------------------------------------------------------

  function WithoutWildcard(principals: seq<bytes>): (r: seq<bytes>)
    ensures forall pr :: pr in r <==> pr in principals && pr != WILDCARD
  {
    if principals == [] then []
    else (if principals[0] == WILDCARD then [] else [principals[0]]) + WithoutWildcard(principals[1..])
  }

  /** The principals that a rule names, in strictly ascending order. */
  function Named(principals: seq<bytes>): seq<bytes> {
    SortedSet(LeBytes, WithoutWildcard(principals))
  }

  /** The principals that a request asks for: when it names none, all those the rule names. */
  function Asked(rule: Rule, requested: seq<bytes>): seq<bytes> {
    if requested == [] then Named(rule.principals) else requested
  }

  predicate Allowed(rule: Rule, pr: bytes) {
    Matches(pr) && ((pr in rule.principals && pr != WILDCARD) || WILDCARD in rule.principals)
  }

  function Objection(rule: Rule, pr: bytes): Option<Denial> {
    if !Matches(pr) then Some(InvalidPrincipal(pr))
    else if !Allowed(rule, pr) then Some(NotAllowed(pr))
    else None
  }

  /** The first objection in the order of the request. */
  function FirstObjection(rule: Rule, asked: seq<bytes>): (r: Option<Denial>)
    ensures r == None <==> forall i :: 0 <= i < |asked| ==> Allowed(rule, asked[i])
  {
    if asked == [] then None
    else if Objection(rule, asked[0]).Some? then Objection(rule, asked[0])
    else FirstObjection(rule, asked[1..])
  }

  function EffectiveTTL(lib: Library, rule: Rule, ttl: i64): i64 {
    if ttl == 0 then MaxTTL(lib, rule) else ttl
  }

  function DecisionUnder(lib: Library, rule: Rule, user: bytes, requested: seq<bytes>, ttl: i64): Decision {
    var asked := Asked(rule, requested);
    if asked == [] then Denied(NothingByName)
    else
      match FirstObjection(rule, asked)
      case Some(denial) => Denied(denial)
      case None =>
        if EffectiveTTL(lib, rule, ttl) > MaxTTL(lib, rule) then Denied(TooLong)
        else Granted(Offer(lib, user, rule).(principals := asked, ttl := EffectiveTTL(lib, rule, ttl)))
  }

  function Decide(lib: Library, p: Document, user: bytes, requested: seq<bytes>, ttl: i64): Decision {
    if user !in p.users then Denied(UnknownUser)
    else DecisionUnder(lib, Merged(p.users[user], p.defaults), user, requested, ttl)
  }

  /** allowed is the Go code's map; it is drained in no particular order when nothing is requested. */
  method Authorize(lib: Library, p: Document, user: bytes, requested: seq<bytes>, ttl: i64) returns (d: Decision)
    ensures d == Decide(lib, p, user, requested, ttl)
  {
    hide MaxTTL, Matches, SortedSet, Sort, LeBytes, Merged, WithoutWildcard;
    var g := Describe(lib, p, user);
    if g == None {
      return Denied(UnknownUser);
    }
    ghost var rule := Merged(p.users[user], p.defaults);
    var grant := g.value;
    var allowed: set<bytes> := {};
    var wildcard := false;
    for i := 0 to |grant.principals|
      invariant wildcard <==> WILDCARD in grant.principals[..i]
      invariant forall pr :: pr in allowed <==> pr in grant.principals[..i] && pr != WILDCARD
    {
      var pr := grant.principals[i];
      assert grant.principals[..i + 1] == grant.principals[..i] + [pr];
      if pr == WILDCARD {
        wildcard := true;
        continue;
      }
      allowed := allowed + {pr};
    }
    assert grant.principals[..|grant.principals|] == grant.principals;
    var asked := requested;
    if |requested| == 0 {
      NamedIs(rule.principals);
      if allowed == {} {
        return Denied(NothingByName);
      }
      asked := InOrder(allowed);
      Orders();
      EnumerationUnique(LeBytes, asked, Named(rule.principals));
    }
    for i := 0 to |asked|
      invariant FirstObjection(rule, asked) == FirstObjection(rule, asked[i..])
    {
      var pr := asked[i];
      assert asked[i..][0] == pr && asked[i..][1..] == asked[i + 1..];
      if !Matches(pr) {
        return Denied(InvalidPrincipal(pr));
      }
      if pr !in allowed && !wildcard {
        return Denied(NotAllowed(pr));
      }
    }
    var granted := ttl;
    if granted == 0 {
      granted := grant.maxTTL;
    }
    if granted > grant.maxTTL {
      return Denied(TooLong);
    }
    return Granted(grant.(principals := asked, ttl := granted));
  }

  /** Collects the keys of a map in some order and sorts them. */
  method InOrder(keys: set<bytes>) returns (r: seq<bytes>)
    ensures StrictlySorted(LeBytes, r)
    ensures forall x :: x in r <==> x in keys
  {
    hide Sort, LeBytes;
    var todo := keys;
    var list: seq<bytes> := [];
    while todo != {}
      invariant todo <= keys
      invariant forall x :: x in list <==> x in keys && x !in todo
      invariant Distinct(list)
      decreases todo
    {
      var x :| x in todo;
      list := list + [x];
      todo := todo - {x};
    }
    r := Sort(LeBytes, list);
    Orders();
    SortKeeps(LeBytes, list);
    DistinctSorted(LeBytes, list, r);
  }

  lemma NamedIs(principals: seq<bytes>)
    ensures StrictlySorted(LeBytes, Named(principals))
    ensures forall pr :: pr in Named(principals) <==> pr in principals && pr != WILDCARD
    ensures Named(principals) == [] <==> forall pr :: pr in principals ==> pr == WILDCARD
  {
    hide LeBytes, SortedSet;
    Orders();
    SortedSetKeeps(LeBytes, WithoutWildcard(principals));
    var named := Named(principals);
    if named != [] {
      assert named[0] in named;
    }
  }

  // ---------------------------------------------------------------------
  // What a decision means
  // ---------------------------------------------------------------------

  /**
   * Deny by default: a request is granted exactly when the user has a rule, something is asked
   * for, every principal asked for is allowed by the rule and the lifetime is within the cap.
   */
  lemma GrantedExactly(lib: Library, p: Document, user: bytes, requested: seq<bytes>, ttl: i64)
    ensures Decide(lib, p, user, requested, ttl).Granted? <==>
            && user in p.users
            && var rule := Merged(p.users[user], p.defaults);
               && (requested == [] ==> exists pr :: pr in rule.principals && pr != WILDCARD)
               && (forall pr :: pr in Asked(rule, requested) ==> Allowed(rule, pr))
               && EffectiveTTL(lib, rule, ttl) <= MaxTTL(lib, rule)
  {
    hide MaxTTL, Allowed;
    if user in p.users {
      var rule := Merged(p.users[user], p.defaults);
      NamedIs(rule.principals);
      var asked := Asked(rule, requested);
      assert forall i :: 0 <= i < |asked| ==> asked[i] in asked;
    }
  }

  lemma {:induction false} FirstObjectionAt(rule: Rule, asked: seq<bytes>) returns (i: nat)
    requires FirstObjection(rule, asked).Some?
    ensures i < |asked| && Objection(rule, asked[i]) == FirstObjection(rule, asked)
    ensures forall k :: 0 <= k < i ==> Allowed(rule, asked[k])
  {
    hide Matches;
    if Objection(rule, asked[0]).Some? {
      i := 0;
    } else {
      var j := FirstObjectionAt(rule, asked[1..]);
      i := j + 1;
      assert forall k :: 0 < k < i ==> asked[k] == asked[1..][k - 1];
    }
  }

  /** The reason of a denial is the true one, and names the first principal objected to. */
  lemma DenialExplained(lib: Library, p: Document, user: bytes, requested: seq<bytes>, ttl: i64)
    requires Decide(lib, p, user, requested, ttl).Denied?
    ensures var reason := Decide(lib, p, user, requested, ttl).reason;
            (reason == UnknownUser <==> user !in p.users) &&
            (user in p.users ==>
               var rule := Merged(p.users[user], p.defaults);
               var asked := Asked(rule, requested);
               match reason
               case UnknownUser => false
               case NothingByName => requested == [] && forall pr :: pr in rule.principals ==> pr == WILDCARD
               case InvalidPrincipal(pr) =>
                 exists i :: 0 <= i < |asked| && asked[i] == pr && !Matches(pr) && FirstObjection(rule, asked[..i]) == None
               case NotAllowed(pr) =>
                 exists i :: 0 <= i < |asked| && asked[i] == pr && Matches(pr) && pr !in rule.principals
                             && WILDCARD !in rule.principals && FirstObjection(rule, asked[..i]) == None
               case TooLong => FirstObjection(rule, asked) == None && EffectiveTTL(lib, rule, ttl) > MaxTTL(lib, rule))
  {
    hide MaxTTL, Matches;
    if user in p.users {
      var rule := Merged(p.users[user], p.defaults);
      NamedIs(rule.principals);
      WildcardNoMatch();
      var asked := Asked(rule, requested);
      if FirstObjection(rule, asked).Some? {
        var i := FirstObjectionAt(rule, asked);
        assert FirstObjection(rule, asked[..i]) == None;
      }
    }
  }

  /**
   * What a grant contains: only allowed principals, at least one, never the wildcard; for a request
   * that names none, the strictly sorted set of the principals the rule names; a lifetime within
   * the cap; and the merged rule's extensions and critical options.
   */
  lemma GrantSound(lib: Library, p: Document, user: bytes, requested: seq<bytes>, ttl: i64)
    requires Decide(lib, p, user, requested, ttl).Granted?
    ensures var g := Decide(lib, p, user, requested, ttl).grant;
            var rule := Merged(p.users[user], p.defaults);
            && g.user == user
            && g.principals != [] && WILDCARD !in g.principals
            && (forall pr :: pr in g.principals ==>
                  Matches(pr) && (pr in rule.principals || WILDCARD in rule.principals))
            && (requested != [] ==> g.principals == requested)
            && (requested == [] ==>
                  StrictlySorted(LeBytes, g.principals) &&
                  forall pr :: pr in g.principals <==> pr in p.users[user].principals && pr != WILDCARD)
            && g.ttl <= g.maxTTL == MaxTTL(lib, rule) && (ttl == 0 ==> g.ttl == g.maxTTL) && (ttl != 0 ==> g.ttl == ttl)
            && g.extensions == rule.extensions.GetOr([])
            && g.sourceAddress == rule.sourceAddress && g.forceCommand == rule.forceCommand
  {
    hide MaxTTL, Matches;
    var rule := Merged(p.users[user], p.defaults);
    var asked := Asked(rule, requested);
    NamedIs(rule.principals);
    assert !Matches(WILDCARD) by { WildcardNoMatch(); }
    assert forall i :: 0 <= i < |asked| ==> Allowed(rule, asked[i]);
  }

  lemma WildcardNoMatch()
    ensures !Matches(WILDCARD)
  {
    assert WILDCARD[0] == '*' as int;
  }

  /** The cap is not a day form, or one that is positive as an int64 number of nanoseconds. */
  predicate PositiveCap(r: Rule) {
    match CutSuffix(r.maxTTL, Ascii("d"))
    case None => true
    case Some(days) => PositiveDays(Atoi(days).GetOr(0))
  }

  /** In a validated document the cap of a user is positive unless it is a day form that wraps. */
  lemma CapPositive(lib: Library, p: Document, user: bytes)
    requires ValidDocument(lib, p) && user in p.users
    ensures var rule := Merged(p.users[user], p.defaults); MaxTTL(lib, rule) > 0 <==> PositiveCap(rule)
  {
    hide PositiveDays;
    var rule := Merged(p.users[user], p.defaults);
    assert rule.maxTTL == p.users[user].maxTTL || rule.maxTTL == p.defaults.maxTTL;
    match CutSuffix(rule.maxTTL, Ascii("d"))
    case None =>
    case Some(days) =>
      assert rule.maxTTL == days + Ascii("d");
      DayTTLExact(lib, days, Atoi(days).value);
  }

  /** A validated rule never refuses its own principals: an empty request fails only for want of names or TTL. */
  lemma EmptyRequestGranted(lib: Library, p: Document, user: bytes, ttl: i64)
    requires ValidDocument(lib, p) && user in p.users
    ensures var rule := Merged(p.users[user], p.defaults);
            Decide(lib, p, user, [], ttl) ==
              if Named(rule.principals) == [] then Denied(NothingByName)
              else if EffectiveTTL(lib, rule, ttl) > MaxTTL(lib, rule) then Denied(TooLong)
              else Granted(Offer(lib, user, rule).(
                     principals := Named(rule.principals), ttl := EffectiveTTL(lib, rule, ttl)))
  {
    hide MaxTTL, ParseTTL, Matches;
    var rule := Merged(p.users[user], p.defaults);
    NamedIs(rule.principals);
    var named := Named(rule.principals);
    forall i | 0 <= i < |named| ensures Allowed(rule, named[i]) {
      assert named[i] in named;
      var k :| 0 <= k < |rule.principals| && rule.principals[k] == named[i];
    }
  }
}

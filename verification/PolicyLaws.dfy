/** What a decision means in terms of the user's own rule and of the defaults. */
module PolicyLaws {
  import opened Basics
  import opened Text
  import opened Sorting
  import opened Policy

  // ---------------------------------------------------------------------
  // Names and lifetimes
  // ---------------------------------------------------------------------

  /** A letter, a digit or one of . _ @ + - */
  predicate NameByte(c: byte) {
    0x41 <= c <= 0x5a || 0x61 <= c <= 0x7a || 0x30 <= c <= 0x39 || c in {0x2e, 0x5f, 0x40, 0x2b, 0x2d}
  }

  predicate IsName(s: bytes) {
    s != [] && forall c :: c in s ==> NameByte(c)
  }

  lemma NamesExactly(s: bytes)
    ensures Matches(s) <==> IsName(s)
    ensures WILDCARD == [0x2a] && !IsName(WILDCARD)
  {
    assert WILDCARD == [0x2a];
    if IsName(s) {
      forall i | 0 <= i < |s| ensures IsPrincipalByte(s[i]) {
        assert s[i] in s;
      }
    }
    assert WILDCARD[0] in WILDCARD;
  }

  /** Which texts are lifetimes: a positive number of days, or what Go accepts as a positive duration. */
  lemma LifetimesExactly(lib: Library, s: bytes, days: bytes)
    ensures ParseTTL(lib, days + [0x64]).Some? <==> Atoi(days).Some? && Atoi(days).value > 0
    ensures s == [] ==> ParseTTL(lib, s) == None
    ensures s != [] && s[|s| - 1] != 0x64 ==>
              forall d :: ParseTTL(lib, s) == Some(d) <==> d > 0 && lib.parseDuration(s) == Some(d)
  {
    hide Atoi;
    assert Ascii("d") == [0x64];
    CutDay(days);
    if CutSuffix(s, Ascii("d")).Some? {
      assert s == CutSuffix(s, Ascii("d")).value + [0x64];
      assert s[|s| - 1] == 0x64;
    }
  }

  /** Signs: "+" changes nothing, "-" negates, and neither counts as a digit. */
  lemma Signs(digits: bytes, n: int)
    requires digits != [] && 0 <= n < 0x8000_0000_0000_0000 && DecimalValue(digits) == Some(n)
    ensures Atoi(digits) == Some(n) && Atoi([0x2b] + digits) == Some(n) && Atoi([0x2d] + digits) == Some(-n)
  {
    assert IsDigit(digits[0]);
    assert ([0x2b] + digits)[1..] == digits && ([0x2d] + digits)[1..] == digits;
  }

  // ---------------------------------------------------------------------
  // Documents
  // ---------------------------------------------------------------------

  predicate RuleAccepted(lib: Library, r: Rule) {
    && (forall pr :: pr in r.principals ==> pr == [0x2a] || IsName(pr))
    && (r.maxTTL == [] || ParseTTL(lib, r.maxTTL).Some?)
    && (r.extensions.Some? ==>
          forall ext :: ext in r.extensions.value ==> ext != [] && 0x20 !in ext && 0x09 !in ext && 0x0a !in ext)
    && (forall addr :: addr in r.sourceAddress ==> lib.isAddress(addr))
  }

  lemma RulesExactly(lib: Library, r: Rule)
    ensures ValidRule(lib, r) <==> RuleAccepted(lib, r)
  {
    hide ParseTTL, Matches, IsName;
    NamesExactly(WILDCARD);
    forall s: bytes ensures Matches(s) <==> IsName(s) {
      NamesExactly(s);
    }
    forall s: bytes ensures ValidExtension(s) <==> s != [] && 0x20 !in s && 0x09 !in s && 0x0a !in s {
    }
    hide ValidExtension;
    assert forall i :: 0 <= i < |r.principals| ==> r.principals[i] in r.principals;
    assert forall i :: 0 <= i < |r.sourceAddress| ==> r.sourceAddress[i] in r.sourceAddress;
    assert r.extensions.Some? ==>
        forall i :: 0 <= i < |r.extensions.value| ==> r.extensions.value[i] in r.extensions.value;
  }

  /** A document is accepted exactly when it is of version 1, names users properly and has only acceptable rules. */
  lemma DocumentsExactly(lib: Library, p: Document)
    ensures ValidDocument(lib, p) <==>
            && p.version == 1 && p.defaults.principals == [] && RuleAccepted(lib, p.defaults)
            && forall user :: user in p.users ==> IsName(user) && RuleAccepted(lib, p.users[user])
  {
    hide ValidRule, RuleAccepted, Matches, IsName;
    RulesExactly(lib, p.defaults);
    forall user | user in p.users
      ensures Matches(user) <==> IsName(user)
      ensures ValidRule(lib, p.users[user]) <==> RuleAccepted(lib, p.users[user])
    {
      NamesExactly(user);
      RulesExactly(lib, p.users[user]);
    }
  }

  // ---------------------------------------------------------------------
  // Decisions
  // ---------------------------------------------------------------------

  /** The cap: the user's own if there is one, else the default's, else eight hours. */
  function CapOf(lib: Library, own: Rule, defaults: Rule): i64 {
    if own.maxTTL != [] then ParseTTL(lib, own.maxTTL).GetOr(0)
    else if defaults.maxTTL != [] then ParseTTL(lib, defaults.maxTTL).GetOr(0)
    else 28_800_000_000_000
  }

  lemma CapIs(lib: Library, own: Rule, defaults: Rule)
    ensures MaxTTL(lib, Merged(own, defaults)) == CapOf(lib, own, defaults)
  {
    hide ParseTTL;
  }

  /** What a description shows: the user's own principals, the cap, and the settings that will apply. */
  lemma DescriptionMeans(lib: Library, user: bytes, own: Rule, base: Rule)
    ensures Offer(lib, user, Merged(own, base)) ==
            Grant(user, own.principals, 0, CapOf(lib, own, base),
                  if own.extensions.Some? then own.extensions.value else base.extensions.GetOr([]),
                  if own.sourceAddress != [] then own.sourceAddress else base.sourceAddress,
                  if own.forceCommand != [] then own.forceCommand else base.forceCommand)
  {
    hide MaxTTL, CapOf;
    CapIs(lib, own, base);
  }

  /** The user may hold this principal. */
  predicate MayHold(own: Rule, pr: bytes) {
    IsName(pr) && (pr in own.principals || [0x2a] in own.principals)
  }

  /**
   * A request is granted exactly when the user has a rule, that rule names or allows every principal asked
   * for, an empty request finds at least one name, and the lifetime asked for is within the cap.
   */
  lemma GrantedWhen(lib: Library, p: Document, user: bytes, requested: seq<bytes>, ttl: i64)
    ensures Decide(lib, p, user, requested, ttl).Granted? <==>
            && user in p.users
            && (if requested == []
                then (exists pr :: pr in p.users[user].principals && pr != [0x2a])
                     && forall pr :: pr in p.users[user].principals ==> pr == [0x2a] || IsName(pr)
                else forall pr :: pr in requested ==> MayHold(p.users[user], pr))
            && (ttl == 0 || ttl <= CapOf(lib, p.users[user], p.defaults))
  {
    hide MaxTTL, Matches, IsName, Named, Decide, Merged, CapOf;
    GrantedExactly(lib, p, user, requested, ttl);
    if user in p.users {
      var rule := Merged(p.users[user], p.defaults);
      CapIs(lib, p.users[user], p.defaults);
      OwnPrincipals(p.users[user], p.defaults);
      NamedIs(rule.principals);
      NamesExactly(WILDCARD);
      forall pr: bytes ensures Allowed(rule, pr) <==> MayHold(p.users[user], pr) {
        NamesExactly(pr);
      }
      if requested == [] {
        assert forall pr :: pr in Asked(rule, requested) <==> pr in p.users[user].principals && pr != [0x2a];
        assert forall pr :: pr in p.users[user].principals ==> (MayHold(p.users[user], pr) <==> IsName(pr));
      }
    }
  }

  lemma OwnPrincipals(own: Rule, defaults: Rule)
    ensures Merged(own, defaults).principals == own.principals
  {
  }

  /**
   * What is granted: the lifetime asked for or else the cap, the principals asked for or else those the
   * user's rule names in ascending order, and the user's own settings wherever there are any, an empty
   * list of extensions included; the defaults' wherever there are none.
   */
  lemma GrantFollowsRules(lib: Library, p: Document, user: bytes, requested: seq<bytes>, ttl: i64)
    requires Decide(lib, p, user, requested, ttl).Granted?
    ensures user in p.users
    ensures var g, own, base := Decide(lib, p, user, requested, ttl).grant, p.users[user], p.defaults;
            && g.user == user && g.principals != [] && [0x2a] !in g.principals
            && (forall pr :: pr in g.principals ==> MayHold(own, pr))
            && (if requested != [] then g.principals == requested
                else Ascending(g.principals) && Distinct(g.principals)
                     && forall pr :: pr in g.principals <==> pr in own.principals && pr != [0x2a])
            && g.maxTTL == CapOf(lib, own, base) && g.ttl == (if ttl == 0 then g.maxTTL else ttl) && g.ttl <= g.maxTTL
            && g.forceCommand == (if own.forceCommand != [] then own.forceCommand else base.forceCommand)
            && g.sourceAddress == (if own.sourceAddress != [] then own.sourceAddress else base.sourceAddress)
            && g.extensions == (match (own.extensions, base.extensions)
                                case (Some(exts), _) => exts
                                case (None, Some(exts)) => exts
                                case (None, None) => [])
  {
    hide MaxTTL, Matches, IsName, Named, Decide, CapOf, LeBytes, InByteOrder;
    GrantSound(lib, p, user, requested, ttl);
    GrantedExactly(lib, p, user, requested, ttl);
    CapIs(lib, p.users[user], p.defaults);
    NamesExactly(WILDCARD);
    var g := Decide(lib, p, user, requested, ttl).grant;
    forall pr | pr in g.principals ensures IsName(pr) {
      NamesExactly(pr);
    }
    SortedAscends(g.principals);
  }
}

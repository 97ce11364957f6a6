/**
 * The navigation bar's path logic: whether the current request path lies
 * under a menu prefix, and the title of the System dropdown, which names
 * the System page the path belongs to.
 */
module Navigation {

  /** `sub` occurs in `s` starting at index `i`. */
  predicate OccursAt(s: string, sub: string, i: int) {
    0 <= i && i + |sub| <= |s| && s[i..i + |sub|] == sub
  }

  /** The characters of `s` from index `i` on begin with `sub`, compared one by one. */
  predicate StartsAt(s: string, sub: string, i: nat)
    decreases |sub|
  {
    sub == [] || (i < |s| && s[i] == sub[0] && StartsAt(s, sub[1..], i + 1))
  }

  /** The character-by-character comparison is the slice comparison. */
  lemma {:induction false} StartsAtIsOccurs(s: string, sub: string, i: nat)
    requires i <= |s|
    ensures StartsAt(s, sub, i) <==> OccursAt(s, sub, i)
    decreases |sub|
  {
    if sub != [] && i < |s| {
      StartsAtIsOccurs(s, sub[1..], i + 1);
      if i + |sub| <= |s| {
        var w := s[i..i + |sub|];
        assert w[0] == s[i] && w[1..] == s[i + 1..i + 1 + |sub[1..]|];
        assert w == sub <==> w[0] == sub[0] && w[1..] == sub[1..] by {
          if w[0] == sub[0] && w[1..] == sub[1..] {
            assert w == [w[0]] + w[1..] && sub == [sub[0]] + sub[1..];
          }
        }
      }
    }
  }

  /** The first index at or after `from` where `sub` occurs in `s`, or -1. */
  function IndexOfFrom(s: string, sub: string, from: nat): int
    decreases |s| + 1 - from
  {
    if from + |sub| > |s| then -1
    else if StartsAt(s, sub, from) then from
    else IndexOfFrom(s, sub, from + 1)
  }

  /** String.prototype.indexOf: the first index where `sub` occurs in `s`, or -1. */
  function IndexOf(s: string, sub: string): int {
    IndexOfFrom(s, sub, 0)
  }

  lemma {:induction false} IndexOfFromIsFirst(s: string, sub: string, from: nat)
    ensures var r := IndexOfFrom(s, sub, from);
            (r == -1 || (from <= r && OccursAt(s, sub, r)))
            && forall i :: from <= i && (r == -1 || i < r) ==> !OccursAt(s, sub, i)
    decreases |s| + 1 - from
  {
    if from + |sub| <= |s| {
      StartsAtIsOccurs(s, sub, from);
      if !StartsAt(s, sub, from) {
        IndexOfFromIsFirst(s, sub, from + 1);
      }
    }
  }

  /** `IndexOf` finds the first occurrence, and answers -1 exactly when there is none. */
  lemma IndexOfIsFirst(s: string, sub: string)
    ensures IndexOf(s, sub) == -1 <==> forall i :: !OccursAt(s, sub, i)
    ensures IndexOf(s, sub) != -1 ==>
      OccursAt(s, sub, IndexOf(s, sub)) && forall i :: 0 <= i < IndexOf(s, sub) ==> !OccursAt(s, sub, i)
  {
    IndexOfFromIsFirst(s, sub, 0);
  }

  /** The request path lies under `prefix`: the prefix occurs at index 0. */
  function IsActive(requestPath: string, prefix: string): bool {
    IndexOf(requestPath, prefix) == 0
  }

  /** The index test is exactly the prefix test. */
  lemma IsActiveIsPrefix(requestPath: string, prefix: string)
    ensures IsActive(requestPath, prefix) <==> prefix <= requestPath
  {
    IndexOfIsFirst(requestPath, prefix);
    assert prefix <= requestPath <==> OccursAt(requestPath, prefix, 0);
  }

  // ---------------------------------------------------------------------------
  // Title of the System menu
  // ---------------------------------------------------------------------------

  // The prefixes the title computation checks and the suffixes it sets.
  const SYSTEM: string := "/system"
  const SYSTEM_PAGE: string := "/system?page="
  const SYSTEM_NODES: string := "/system/nodes"
  const SYSTEM_RADIOS: string := "/system/radios"
  const SYSTEM_INPUTS: string := "/system/inputs"
  const SYSTEM_OUTPUTS: string := "/system/outputs"
  const SYSTEM_INDICES: string := "/system/indices"
  const SYSTEM_LOGGING: string := "/system/logging"
  const SYSTEM_USERS: string := "/system/users"
  const SYSTEM_ROLES: string := "/system/roles"
  const SYSTEM_CONTENTPACKS: string := "/system/contentpacks"
  const SYSTEM_GROKPATTERNS: string := "/system/grokpatterns"
  const SYSTEM_COLLECTORS: string := "/system/collectors"

  const OVERVIEW: string := " / Overview"
  const NODES: string := " / Nodes"
  const INPUTS: string := " / Inputs"
  const OUTPUTS: string := " / Outputs"
  const INDICES: string := " / Indices"
  const LOGGING: string := " / Logging"
  const USERS: string := " / Users"
  const ROLES: string := " / Roles"
  const CONTENT_PACKS: string := " / Content Packs"
  const GROK_PATTERNS: string := " / Grok Patterns"
  const COLLECTORS: string := " / Collectors"

  /** A title rule: the path prefix that selects it and the suffix it sets. */
  datatype TitleRule = TitleRule(prefix: string, suffix: string)

  /**
   * The checks of the title computation, in the order they are made. A check
   * with two alternative prefixes is two consecutive rules with one suffix.
   */
  const TitleRules: seq<TitleRule> := [
    TitleRule(SYSTEM, OVERVIEW),
    TitleRule(SYSTEM_PAGE, OVERVIEW),
    TitleRule(SYSTEM_NODES, NODES),
    TitleRule(SYSTEM_RADIOS, NODES),
    TitleRule(SYSTEM_INPUTS, INPUTS),
    TitleRule(SYSTEM_OUTPUTS, OUTPUTS),
    TitleRule(SYSTEM_INDICES, INDICES),
    TitleRule(SYSTEM_LOGGING, LOGGING),
    TitleRule(SYSTEM_USERS, USERS),
    TitleRule(SYSTEM_ROLES, ROLES),
    TitleRule(SYSTEM_CONTENTPACKS, CONTENT_PACKS),
    TitleRule(SYSTEM_GROKPATTERNS, GROK_PATTERNS),
    TitleRule(SYSTEM_COLLECTORS, COLLECTORS)
  ]

  /** Rule `k` is among the first `n`, matches, and no later one of them does. */
  predicate IsLastMatch(requestPath: string, rules: seq<TitleRule>, n: nat, k: int)
    requires n <= |rules|
  {
    && 0 <= k < n
    && IsActive(requestPath, rules[k].prefix)
    && forall j :: k < j < n ==> !IsActive(requestPath, rules[j].prefix)
  }

  /** The suffix of the last of the first `n` rules that matches, or "" when none does. */
  function LastMatch(requestPath: string, rules: seq<TitleRule>, n: nat): string
    requires n <= |rules|
  {
    if n == 0 then ""
    else if IsActive(requestPath, rules[n - 1].prefix) then rules[n - 1].suffix
    else LastMatch(requestPath, rules, n - 1)
  }

  /** `LastMatch` is the suffix of the last matching rule, and "" when no rule matches. */
  lemma {:induction false} LastMatchIsLast(requestPath: string, rules: seq<TitleRule>, n: nat)
    requires n <= |rules|
    ensures (forall k :: 0 <= k < n ==> !IsActive(requestPath, rules[k].prefix)) ==> LastMatch(requestPath, rules, n) == ""
    ensures forall k :: IsLastMatch(requestPath, rules, n, k) ==> LastMatch(requestPath, rules, n) == rules[k].suffix
  {
    if n > 0 {
      LastMatchIsLast(requestPath, rules, n - 1);
      assert forall k :: IsLastMatch(requestPath, rules, n, k) && k < n - 1 ==> IsLastMatch(requestPath, rules, n - 1, k);
    }
  }

  /**
   * The checks read from the last to the first: the first check found active
   * this way is the last one made, whose suffix is the one kept.
   */
  function TitleSuffix(requestPath: string): string {
    if IsActive(requestPath, SYSTEM_COLLECTORS) then COLLECTORS
    else if IsActive(requestPath, SYSTEM_GROKPATTERNS) then GROK_PATTERNS
    else if IsActive(requestPath, SYSTEM_CONTENTPACKS) then CONTENT_PACKS
    else if IsActive(requestPath, SYSTEM_ROLES) then ROLES
    else if IsActive(requestPath, SYSTEM_USERS) then USERS
    else if IsActive(requestPath, SYSTEM_LOGGING) then LOGGING
    else if IsActive(requestPath, SYSTEM_INDICES) then INDICES
    else if IsActive(requestPath, SYSTEM_OUTPUTS) then OUTPUTS
    else if IsActive(requestPath, SYSTEM_INPUTS) then INPUTS
    else if IsActive(requestPath, SYSTEM_NODES) || IsActive(requestPath, SYSTEM_RADIOS) then NODES
    else if IsActive(requestPath, SYSTEM) || IsActive(requestPath, SYSTEM_PAGE) then OVERVIEW
    else ""
  }

  lemma TitleSuffixIsLastMatch(requestPath: string)
    ensures TitleSuffix(requestPath) == LastMatch(requestPath, TitleRules, |TitleRules|)
  {
    assert LastMatch(requestPath, TitleRules, 13) == if IsActive(requestPath, SYSTEM_COLLECTORS) then COLLECTORS else LastMatch(requestPath, TitleRules, 12);
    assert LastMatch(requestPath, TitleRules, 12) == if IsActive(requestPath, SYSTEM_GROKPATTERNS) then GROK_PATTERNS else LastMatch(requestPath, TitleRules, 11);
    assert LastMatch(requestPath, TitleRules, 11) == if IsActive(requestPath, SYSTEM_CONTENTPACKS) then CONTENT_PACKS else LastMatch(requestPath, TitleRules, 10);
    assert LastMatch(requestPath, TitleRules, 10) == if IsActive(requestPath, SYSTEM_ROLES) then ROLES else LastMatch(requestPath, TitleRules, 9);
    assert LastMatch(requestPath, TitleRules, 9) == if IsActive(requestPath, SYSTEM_USERS) then USERS else LastMatch(requestPath, TitleRules, 8);
    assert LastMatch(requestPath, TitleRules, 8) == if IsActive(requestPath, SYSTEM_LOGGING) then LOGGING else LastMatch(requestPath, TitleRules, 7);
    assert LastMatch(requestPath, TitleRules, 7) == if IsActive(requestPath, SYSTEM_INDICES) then INDICES else LastMatch(requestPath, TitleRules, 6);
    assert LastMatch(requestPath, TitleRules, 6) == if IsActive(requestPath, SYSTEM_OUTPUTS) then OUTPUTS else LastMatch(requestPath, TitleRules, 5);
    assert LastMatch(requestPath, TitleRules, 5) == if IsActive(requestPath, SYSTEM_INPUTS) then INPUTS else LastMatch(requestPath, TitleRules, 4);
    assert LastMatch(requestPath, TitleRules, 4) == if IsActive(requestPath, SYSTEM_RADIOS) then NODES else LastMatch(requestPath, TitleRules, 3);
    assert LastMatch(requestPath, TitleRules, 3) == if IsActive(requestPath, SYSTEM_NODES) then NODES else LastMatch(requestPath, TitleRules, 2);
    assert LastMatch(requestPath, TitleRules, 2) == if IsActive(requestPath, SYSTEM_PAGE) then OVERVIEW else LastMatch(requestPath, TitleRules, 1);
    assert LastMatch(requestPath, TitleRules, 1) == if IsActive(requestPath, SYSTEM) then OVERVIEW else LastMatch(requestPath, TitleRules, 0);
  }

  /**
   * The dropdown title: "System", followed by the suffix of the last check
   * whose prefix the request path starts with.
   */
  method SystemTitle(requestPath: string) returns (title: string)
    ensures "System" <= title
    ensures title == "System" + LastMatch(requestPath, TitleRules, |TitleRules|)
  {
    var suffix := "";
    if IsActive(requestPath, SYSTEM) || IsActive(requestPath, SYSTEM_PAGE) {
      suffix := OVERVIEW;
    }
    if IsActive(requestPath, SYSTEM_NODES) || IsActive(requestPath, SYSTEM_RADIOS) {
      suffix := NODES;
    }
    if IsActive(requestPath, SYSTEM_INPUTS) {
      suffix := INPUTS;
    }
    if IsActive(requestPath, SYSTEM_OUTPUTS) {
      suffix := OUTPUTS;
    }
    if IsActive(requestPath, SYSTEM_INDICES) {
      suffix := INDICES;
    }
    if IsActive(requestPath, SYSTEM_LOGGING) {
      suffix := LOGGING;
    }
    if IsActive(requestPath, SYSTEM_USERS) {
      suffix := USERS;
    }
    if IsActive(requestPath, SYSTEM_ROLES) {
      suffix := ROLES;
    }
    if IsActive(requestPath, SYSTEM_CONTENTPACKS) {
      suffix := CONTENT_PACKS;
    }
    if IsActive(requestPath, SYSTEM_GROKPATTERNS) {
      suffix := GROK_PATTERNS;
    }
    if IsActive(requestPath, SYSTEM_COLLECTORS) {
      suffix := COLLECTORS;
    }
    assert suffix == TitleSuffix(requestPath);
    TitleSuffixIsLastMatch(requestPath);
    title := "System" + suffix;
  }

  // ---------------------------------------------------------------------------
  // What the title says
  // ---------------------------------------------------------------------------

  /** With suffixes that are never empty, the suffix is empty exactly when no rule matches. */
  lemma {:induction false} LastMatchEmpty(requestPath: string, rules: seq<TitleRule>, n: nat)
    requires n <= |rules|
    requires forall k :: 0 <= k < |rules| ==> rules[k].suffix != ""
    ensures LastMatch(requestPath, rules, n) == "" <==> forall k :: 0 <= k < n ==> !IsActive(requestPath, rules[k].prefix)
  {
    if n > 0 {
      LastMatchEmpty(requestPath, rules, n - 1);
    }
  }

  /** Every prefix the title computation checks begins with "/system". */
  lemma TitlePrefixesUnderSystem()
    ensures forall k :: 0 <= k < |TitleRules| ==> SYSTEM <= TitleRules[k].prefix
  {
  }

  lemma PrefixTransitive(a: string, b: string, c: string)
    requires a <= b && b <= c
    ensures a <= c
  {
    assert a == b[..|a|] == c[..|a|];
  }

  /** A path outside "/system" gets the bare title "System", and only such a path does. */
  lemma PlainTitleOutsideSystem(requestPath: string)
    ensures LastMatch(requestPath, TitleRules, |TitleRules|) == "" <==> !(SYSTEM <= requestPath)
  {
    var rules := TitleRules;
    assert forall k :: 0 <= k < |rules| ==> rules[k].suffix != "";
    LastMatchEmpty(requestPath, rules, |rules|);
    if SYSTEM <= requestPath {
      IsActiveIsPrefix(requestPath, rules[0].prefix);
    } else {
      TitlePrefixesUnderSystem();
      forall k | 0 <= k < |rules|
        ensures !IsActive(requestPath, rules[k].prefix)
      {
        IsActiveIsPrefix(requestPath, rules[k].prefix);
        if rules[k].prefix <= requestPath {
          PrefixTransitive(SYSTEM, rules[k].prefix, requestPath);
        }
      }
    }
  }

  /** The second Overview prefix adds nothing: every path it matches also matches "/system". */
  lemma PageCheckIsSubsumed(requestPath: string)
    ensures IsActive(requestPath, SYSTEM_PAGE) ==> IsActive(requestPath, SYSTEM)
  {
    IsActiveIsPrefix(requestPath, SYSTEM_PAGE);
    IsActiveIsPrefix(requestPath, SYSTEM);
    assert SYSTEM <= SYSTEM_PAGE;
  }

  /** Neither of two strings is a prefix of the other. */
  predicate Incomparable(a: string, b: string) {
    !(a <= b) && !(b <= a)
  }

  lemma DifferAt(a: string, b: string, i: nat)
    requires i < |a| && i < |b| && a[i] != b[i]
    ensures Incomparable(a, b)
  {
  }

  /** Two prefixes of one string are prefixes of each other, the shorter of the longer. */
  lemma PrefixesOfSamePath(a: string, b: string, requestPath: string)
    requires a <= requestPath && b <= requestPath && |a| <= |b|
    ensures a <= b
  {
    assert a == requestPath[..|a|] == b[..|a|];
  }

  /** A path lies under at most one of two incomparable prefixes. */
  lemma IncomparableExclusive(a: string, b: string, requestPath: string)
    requires Incomparable(a, b)
    ensures !(a <= requestPath && b <= requestPath)
  {
    if a <= requestPath && b <= requestPath {
      if |a| <= |b| {
        PrefixesOfSamePath(a, b, requestPath);
      } else {
        PrefixesOfSamePath(b, a, requestPath);
      }
    }
  }

  lemma EarlySectionsIncomparable()
    ensures forall i, j :: 2 <= i < 4 && i < j < |TitleRules| ==> Incomparable(TitleRules[i].prefix, TitleRules[j].prefix)
  {
    forall i, j | 2 <= i < 4 && i < j < |TitleRules|
      ensures Incomparable(TitleRules[i].prefix, TitleRules[j].prefix)
    {
      if i == 2 {
        if j == 3 {
          DifferAt(SYSTEM_NODES, SYSTEM_RADIOS, 8);
        } else if j == 4 {
          DifferAt(SYSTEM_NODES, SYSTEM_INPUTS, 8);
        } else if j == 5 {
          DifferAt(SYSTEM_NODES, SYSTEM_OUTPUTS, 8);
        } else if j == 6 {
          DifferAt(SYSTEM_NODES, SYSTEM_INDICES, 8);
        } else if j == 7 {
          DifferAt(SYSTEM_NODES, SYSTEM_LOGGING, 8);
        } else if j == 8 {
          DifferAt(SYSTEM_NODES, SYSTEM_USERS, 8);
        } else if j == 9 {
          DifferAt(SYSTEM_NODES, SYSTEM_ROLES, 8);
        } else if j == 10 {
          DifferAt(SYSTEM_NODES, SYSTEM_CONTENTPACKS, 8);
        } else if j == 11 {
          DifferAt(SYSTEM_NODES, SYSTEM_GROKPATTERNS, 8);
        } else if j == 12 {
          DifferAt(SYSTEM_NODES, SYSTEM_COLLECTORS, 8);
        }
      } else if i == 3 {
        if j == 4 {
          DifferAt(SYSTEM_RADIOS, SYSTEM_INPUTS, 8);
        } else if j == 5 {
          DifferAt(SYSTEM_RADIOS, SYSTEM_OUTPUTS, 8);
        } else if j == 6 {
          DifferAt(SYSTEM_RADIOS, SYSTEM_INDICES, 8);
        } else if j == 7 {
          DifferAt(SYSTEM_RADIOS, SYSTEM_LOGGING, 8);
        } else if j == 8 {
          DifferAt(SYSTEM_RADIOS, SYSTEM_USERS, 8);
        } else if j == 9 {
          DifferAt(SYSTEM_RADIOS, SYSTEM_ROLES, 9);
        } else if j == 10 {
          DifferAt(SYSTEM_RADIOS, SYSTEM_CONTENTPACKS, 8);
        } else if j == 11 {
          DifferAt(SYSTEM_RADIOS, SYSTEM_GROKPATTERNS, 8);
        } else if j == 12 {
          DifferAt(SYSTEM_RADIOS, SYSTEM_COLLECTORS, 8);
        }
      }
    }
  }

  lemma LateSectionsIncomparable()
    ensures forall i, j :: 4 <= i < j < |TitleRules| ==> Incomparable(TitleRules[i].prefix, TitleRules[j].prefix)
  {
    forall i, j | 4 <= i < j < |TitleRules|
      ensures Incomparable(TitleRules[i].prefix, TitleRules[j].prefix)
    {
      if i == 4 {
        if j == 5 {
          DifferAt(SYSTEM_INPUTS, SYSTEM_OUTPUTS, 8);
        } else if j == 6 {
          DifferAt(SYSTEM_INPUTS, SYSTEM_INDICES, 10);
        } else if j == 7 {
          DifferAt(SYSTEM_INPUTS, SYSTEM_LOGGING, 8);
        } else if j == 8 {
          DifferAt(SYSTEM_INPUTS, SYSTEM_USERS, 8);
        } else if j == 9 {
          DifferAt(SYSTEM_INPUTS, SYSTEM_ROLES, 8);
        } else if j == 10 {
          DifferAt(SYSTEM_INPUTS, SYSTEM_CONTENTPACKS, 8);
        } else if j == 11 {
          DifferAt(SYSTEM_INPUTS, SYSTEM_GROKPATTERNS, 8);
        } else if j == 12 {
          DifferAt(SYSTEM_INPUTS, SYSTEM_COLLECTORS, 8);
        }
      } else if i == 5 {
        if j == 6 {
          DifferAt(SYSTEM_OUTPUTS, SYSTEM_INDICES, 8);
        } else if j == 7 {
          DifferAt(SYSTEM_OUTPUTS, SYSTEM_LOGGING, 8);
        } else if j == 8 {
          DifferAt(SYSTEM_OUTPUTS, SYSTEM_USERS, 8);
        } else if j == 9 {
          DifferAt(SYSTEM_OUTPUTS, SYSTEM_ROLES, 8);
        } else if j == 10 {
          DifferAt(SYSTEM_OUTPUTS, SYSTEM_CONTENTPACKS, 8);
        } else if j == 11 {
          DifferAt(SYSTEM_OUTPUTS, SYSTEM_GROKPATTERNS, 8);
        } else if j == 12 {
          DifferAt(SYSTEM_OUTPUTS, SYSTEM_COLLECTORS, 8);
        }
      } else if i == 6 {
        if j == 7 {
          DifferAt(SYSTEM_INDICES, SYSTEM_LOGGING, 8);
        } else if j == 8 {
          DifferAt(SYSTEM_INDICES, SYSTEM_USERS, 8);
        } else if j == 9 {
          DifferAt(SYSTEM_INDICES, SYSTEM_ROLES, 8);
        } else if j == 10 {
          DifferAt(SYSTEM_INDICES, SYSTEM_CONTENTPACKS, 8);
        } else if j == 11 {
          DifferAt(SYSTEM_INDICES, SYSTEM_GROKPATTERNS, 8);
        } else if j == 12 {
          DifferAt(SYSTEM_INDICES, SYSTEM_COLLECTORS, 8);
        }
      } else if i == 7 {
        if j == 8 {
          DifferAt(SYSTEM_LOGGING, SYSTEM_USERS, 8);
        } else if j == 9 {
          DifferAt(SYSTEM_LOGGING, SYSTEM_ROLES, 8);
        } else if j == 10 {
          DifferAt(SYSTEM_LOGGING, SYSTEM_CONTENTPACKS, 8);
        } else if j == 11 {
          DifferAt(SYSTEM_LOGGING, SYSTEM_GROKPATTERNS, 8);
        } else if j == 12 {
          DifferAt(SYSTEM_LOGGING, SYSTEM_COLLECTORS, 8);
        }
      } else if i == 8 {
        if j == 9 {
          DifferAt(SYSTEM_USERS, SYSTEM_ROLES, 8);
        } else if j == 10 {
          DifferAt(SYSTEM_USERS, SYSTEM_CONTENTPACKS, 8);
        } else if j == 11 {
          DifferAt(SYSTEM_USERS, SYSTEM_GROKPATTERNS, 8);
        } else if j == 12 {
          DifferAt(SYSTEM_USERS, SYSTEM_COLLECTORS, 8);
        }
      } else if i == 9 {
        if j == 10 {
          DifferAt(SYSTEM_ROLES, SYSTEM_CONTENTPACKS, 8);
        } else if j == 11 {
          DifferAt(SYSTEM_ROLES, SYSTEM_GROKPATTERNS, 8);
        } else if j == 12 {
          DifferAt(SYSTEM_ROLES, SYSTEM_COLLECTORS, 8);
        }
      } else if i == 10 {
        if j == 11 {
          DifferAt(SYSTEM_CONTENTPACKS, SYSTEM_GROKPATTERNS, 8);
        } else if j == 12 {
          DifferAt(SYSTEM_CONTENTPACKS, SYSTEM_COLLECTORS, 10);
        }
      } else if i == 11 {
        if j == 12 {
          DifferAt(SYSTEM_GROKPATTERNS, SYSTEM_COLLECTORS, 8);
        }
      }
    }
  }

  /**
   * A path under one of the System sections (every check after the Overview
   * one) gets that section's title, whatever order the checks are made in:
   * no other section prefix can match the same path.
   */
  lemma SectionTitle(requestPath: string, k: int)
    requires 2 <= k < |TitleRules|
    requires TitleRules[k].prefix <= requestPath
    ensures LastMatch(requestPath, TitleRules, |TitleRules|) == TitleRules[k].suffix
  {
    EarlySectionsIncomparable();
    LateSectionsIncomparable();
    IsActiveIsPrefix(requestPath, TitleRules[k].prefix);
    forall j | k < j < |TitleRules|
      ensures !IsActive(requestPath, TitleRules[j].prefix)
    {
      IsActiveIsPrefix(requestPath, TitleRules[j].prefix);
      IncomparableExclusive(TitleRules[k].prefix, TitleRules[j].prefix, requestPath);
    }
    assert IsLastMatch(requestPath, TitleRules, |TitleRules|, k);
    LastMatchIsLast(requestPath, TitleRules, |TitleRules|);
  }

  /** A path under "/system" but under none of its sections gets the Overview title. */
  lemma OverviewTitle(requestPath: string)
    requires SYSTEM <= requestPath
    requires forall k :: 2 <= k < |TitleRules| ==> !(TitleRules[k].prefix <= requestPath)
    ensures LastMatch(requestPath, TitleRules, |TitleRules|) == OVERVIEW
  {
    IsActiveIsPrefix(requestPath, SYSTEM);
    forall j | 2 <= j < |TitleRules|
      ensures !IsActive(requestPath, TitleRules[j].prefix)
    {
      IsActiveIsPrefix(requestPath, TitleRules[j].prefix);
    }
    LastMatchIsLast(requestPath, TitleRules, |TitleRules|);
    if IsActive(requestPath, SYSTEM_PAGE) {
      assert IsLastMatch(requestPath, TitleRules, |TitleRules|, 1);
    } else {
      assert IsLastMatch(requestPath, TitleRules, |TitleRules|, 0);
    }
  }

  /** Paths under "/system/nodes" and paths under "/system/radios" share the Nodes title. */
  lemma NodesTitle(requestPath: string)
    requires SYSTEM_NODES <= requestPath || SYSTEM_RADIOS <= requestPath
    ensures LastMatch(requestPath, TitleRules, |TitleRules|) == NODES
  {
    if SYSTEM_NODES <= requestPath {
      SectionTitle(requestPath, 2);
    } else {
      SectionTitle(requestPath, 3);
    }
  }

  /**
   * The content pack export page matches both "/system" and
   * "/system/contentpacks"; the later check wins.
   */
  lemma ContentPacksExportTitle()
    ensures LastMatch("/system/contentpacks/export", TitleRules, |TitleRules|) == CONTENT_PACKS
  {
    var path := "/system/contentpacks/export";
    assert path == SYSTEM_CONTENTPACKS + "/export";
    SectionTitle(path, 10);
  }
}

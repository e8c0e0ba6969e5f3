/**
 Evaluation of a permission specification for a user's groups, inversion of
 a permission table, and the three ways of combining two tables (whitelist
 with whitelist, whitelist with blacklist, blacklist with blacklist).

 A specification is read either as a whitelist (explicit entries grant, no
 entry means no access) or as a blacklist (explicit entries revoke, no entry
 means full access); the flag `isBlackList` selects the reading.
 */
module PermUtils {
  import opened PermTypes

  /**
   The groups that both the specification names for a resource and the user
   belongs to. Only membership in `groups` matters, not order or repetition.
   */
  function RelevantGroups(groupRules: map<Group, Rule>, groups: seq<Group>): (relevant: set<Group>)
    ensures relevant <= groupRules.Keys
    ensures forall g :: g in groups && g in groupRules <==> g in relevant
  {
    set g | g in groupRules && g in groups
  }

  /** No group is relevant exactly when none of the user's groups is named by the entry. */
  lemma RelevantGroupsEmpty(groupRules: map<Group, Rule>, groups: seq<Group>)
    ensures RelevantGroups(groupRules, groups) == {} <==> forall g :: g in groups ==> g !in groupRules
  {
  }

  /**
   Whether the user in `groups` may perform `a` on `table`.
   A whitelist grants when some relevant group grants; a blacklist grants
   when every relevant group grants. With no relevant group (or no entry for
   the resource at all) the answer is the mode's default: nothing for a
   whitelist, everything for a blacklist.
   */
  function HasPerm(table: Resource, groups: seq<Group>, a: Action, spec: PermSpec, isBlackList: bool): (b: bool)
    ensures table !in spec ==> b == isBlackList
    ensures table in spec && RelevantGroups(spec[table], groups) == {} ==> b == isBlackList
  {
    if table !in spec then isBlackList
    else
      var relevant := RelevantGroups(spec[table], groups);
      if relevant == {} then isBlackList
      else if isBlackList then !(exists g :: g in relevant && !Grants(spec[table][g], a))
      else exists g :: g in relevant && Grants(spec[table][g], a)
  }

  /**
   Under a whitelist the user may perform `a` exactly when some group the
   user is in is named for the resource and grants `a`.
   */
  lemma WhitelistGrantsIffSomeGroupGrants(table: Resource, groups: seq<Group>, a: Action, spec: PermSpec)
    ensures HasPerm(table, groups, a, spec, false)
        <==> exists g :: g in groups && table in spec && g in spec[table] && Grants(spec[table][g], a)
  {
  }

  /**
   Under a blacklist the user may perform `a` exactly when every group the
   user is in that is named for the resource grants `a`; a single revoking
   group denies, and with no such group nothing is revoked.
   */
  lemma BlacklistGrantsIffEveryGroupGrants(table: Resource, groups: seq<Group>, a: Action, spec: PermSpec)
    ensures HasPerm(table, groups, a, spec, true)
        <==> forall g :: g in groups && table in spec && g in spec[table] ==> Grants(spec[table][g], a)
  {
  }

  /**
   The user's permission table: one record per resource the specification
   names, each action decided by HasPerm.
   */
  function GetGroupPerms(groups: seq<Group>, spec: PermSpec, isBlackList: bool): (t: Table)
    ensures t.Keys == spec.Keys
    ensures forall res, a :: res in t ==> t[res].Get(a) == HasPerm(res, groups, a, spec, isBlackList)
  {
    map res | res in spec ::
      Crud(HasPerm(res, groups, C, spec, isBlackList),
           HasPerm(res, groups, R, spec, isBlackList),
           HasPerm(res, groups, U, spec, isBlackList),
           HasPerm(res, groups, D, spec, isBlackList))
  }

  /** The table with the same resources and every action's value negated. */
  function InvertResults(userPerms: Table): (inv: Table)
    ensures inv.Keys == userPerms.Keys
    ensures forall res, a :: res in inv ==> inv[res].Get(a) == !userPerms[res].Get(a)
  {
    map res | res in userPerms :: userPerms[res].Negate()
  }

  /**
   The shared merge: a record for every resource of either table, each action
   decided by `decide`.
   */
  function CombinePermissionSets(t1: Table, t2: Table, decide: (Resource, Action) -> bool): (merged: Table)
    ensures merged.Keys == t1.Keys + t2.Keys
    ensures forall res, a :: res in merged ==> merged[res].Get(a) == decide(res, a)
  {
    map res | res in t1.Keys + t2.Keys ::
      Crud(decide(res, C), decide(res, R), decide(res, U), decide(res, D))
  }

  /**
   Merge of two whitelist results: a grant in either wins over a revocation
   in the other, and a resource only one table has keeps that table's record.
   */
  function CombineWhiteResults(w1: Table, w2: Table): (merged: Table)
    ensures merged.Keys == w1.Keys + w2.Keys
    ensures forall res :: res in w1 && res !in w2 ==> merged[res] == w1[res]
    ensures forall res :: res in w2 && res !in w1 ==> merged[res] == w2[res]
    ensures forall res, a :: res in w1 && res in w2 ==>
      merged[res].Get(a) == (w1[res].Get(a) || w2[res].Get(a))
  {
    CombinePermissionSets(w1, w2, (res, a) => Granted(w1, res, a) || Granted(w2, res, a))
  }

  /**
   Merge of a whitelist result with a blacklist result: a revocation in either
   wins over a grant in the other, a resource the whitelist lacks is denied
   outright, and a resource only the whitelist has keeps the whitelist's record.
   */
  function CombineWhiteAndBlackResults(white: Table, black: Table): (merged: Table)
    ensures merged.Keys == white.Keys + black.Keys
    ensures forall res :: res in black && res !in white ==> merged[res] == Uniform(false)
    ensures forall res :: res in white && res !in black ==> merged[res] == white[res]
    ensures forall res, a :: res in white && res in black ==>
      merged[res].Get(a) == (white[res].Get(a) && black[res].Get(a))
  {
    CombinePermissionSets(white, black,
      (res, a) => if res !in white || Revoked(black, res, a) then false else Granted(white, res, a))
  }

  /**
   Merge of two blacklist results: a revocation in either wins over a grant
   in the other, and a resource only one table has keeps that table's record.
   */
  function CombineBlackResults(b1: Table, b2: Table): (merged: Table)
    ensures merged.Keys == b1.Keys + b2.Keys
    ensures forall res :: res in b1 && res !in b2 ==> merged[res] == b1[res]
    ensures forall res :: res in b2 && res !in b1 ==> merged[res] == b2[res]
    ensures forall res, a :: res in b1 && res in b2 ==>
      merged[res].Get(a) == (b1[res].Get(a) && b2[res].Get(a))
  {
    CombinePermissionSets(b1, b2,
      (res, a) => if Revoked(b1, res, a) || Revoked(b2, res, a) then false
                  else Granted(b1, res, a) || Granted(b2, res, a))
  }
}

/**
 Properties relating the operations of PermUtils to each other: what
 evaluation gives in the default cases, that only group membership matters,
 that inversion is an involution, and the algebra of the three merges.
 */
module PermLaws {
  import opened PermTypes
  import opened PermUtils

  // ---------------------------------------------------------------------------
  // Evaluation
  // ---------------------------------------------------------------------------

  /** An empty specification yields an empty table, in either mode. */
  lemma EmptySpecGivesEmptyTable(groups: seq<Group>, isBlackList: bool)
    ensures GetGroupPerms(groups, map[], isBlackList) == map[]
  {
  }

  /**
   When none of the user's groups is named anywhere in the specification,
   every resource gets the mode's default record: all false for a whitelist,
   all true for a blacklist.
   */
  lemma NoRelevantGroupsGivesDefault(groups: seq<Group>, spec: PermSpec, isBlackList: bool)
    requires forall res, g :: res in spec && g in spec[res] ==> g !in groups
    ensures forall res :: res in spec ==> GetGroupPerms(groups, spec, isBlackList)[res] == Uniform(isBlackList)
  {
  }

  /**
   With two relevant groups of which one grants and the other revokes an
   action, a whitelist grants it and a blacklist denies it.
   */
  lemma MixedGroups(table: Resource, groups: seq<Group>, a: Action, spec: PermSpec, granter: Group, revoker: Group)
    requires table in spec && granter in spec[table] && revoker in spec[table]
    requires granter in groups && revoker in groups
    requires Grants(spec[table][granter], a) && !Grants(spec[table][revoker], a)
    ensures HasPerm(table, groups, a, spec, false)
    ensures !HasPerm(table, groups, a, spec, true)
  {
  }

  /**
   For a user in exactly one group, a whitelist gives that group's rule on
   every resource that names the group (missing actions denied) and nothing
   elsewhere; a blacklist gives the same rule where the group is named and
   everything elsewhere.
   */
  lemma SingleGroupPerms(g: Group, spec: PermSpec, isBlackList: bool)
    ensures forall res, a :: res in spec && g in spec[res] ==>
      GetGroupPerms([g], spec, isBlackList)[res].Get(a) == Grants(spec[res][g], a)
    ensures forall res :: res in spec && g !in spec[res] ==>
      GetGroupPerms([g], spec, isBlackList)[res] == Uniform(isBlackList)
  {
  }

  /** Evaluation sees only which groups the user is in, not their order or repetition. */
  lemma OnlyMembershipMatters(groups1: seq<Group>, groups2: seq<Group>, spec: PermSpec, isBlackList: bool)
    requires forall g :: g in groups1 <==> g in groups2
    ensures GetGroupPerms(groups1, spec, isBlackList) == GetGroupPerms(groups2, spec, isBlackList)
  {
    var t1 := GetGroupPerms(groups1, spec, isBlackList);
    var t2 := GetGroupPerms(groups2, spec, isBlackList);
    TableExtensional(t1, t2);
  }

  /** For one action, concatenating two group lists ORs their whitelist answers. */
  lemma WhiteGroupUnion(table: Resource, groups1: seq<Group>, groups2: seq<Group>, a: Action, spec: PermSpec)
    ensures HasPerm(table, groups1 + groups2, a, spec, false)
        == (HasPerm(table, groups1, a, spec, false) || HasPerm(table, groups2, a, spec, false))
  {
  }

  /** For one action, concatenating two group lists ANDs their blacklist answers. */
  lemma BlackGroupUnion(table: Resource, groups1: seq<Group>, groups2: seq<Group>, a: Action, spec: PermSpec)
    ensures HasPerm(table, groups1 + groups2, a, spec, true)
        == (HasPerm(table, groups1, a, spec, true) && HasPerm(table, groups2, a, spec, true))
  {
  }

  /**
   Merging the whitelist results of two group lists gives the whitelist
   result of the user who is in both lists' groups.
   */
  lemma CombineWhiteIsGroupUnion(groups1: seq<Group>, groups2: seq<Group>, spec: PermSpec)
    ensures CombineWhiteResults(GetGroupPerms(groups1, spec, false), GetGroupPerms(groups2, spec, false))
         == GetGroupPerms(groups1 + groups2, spec, false)
  {
    var t1 := GetGroupPerms(groups1, spec, false);
    var t2 := GetGroupPerms(groups2, spec, false);
    var both := GetGroupPerms(groups1 + groups2, spec, false);
    forall res, a | res in both
      ensures both[res].Get(a) == (t1[res].Get(a) || t2[res].Get(a))
    {
      WhiteGroupUnion(res, groups1, groups2, a, spec);
    }
    CombineWhiteOfSameResources(t1, t2, both);
  }

  /**
   Merging the blacklist results of two group lists gives the blacklist
   result of the user who is in both lists' groups.
   */
  lemma CombineBlackIsGroupUnion(groups1: seq<Group>, groups2: seq<Group>, spec: PermSpec)
    ensures CombineBlackResults(GetGroupPerms(groups1, spec, true), GetGroupPerms(groups2, spec, true))
         == GetGroupPerms(groups1 + groups2, spec, true)
  {
    var t1 := GetGroupPerms(groups1, spec, true);
    var t2 := GetGroupPerms(groups2, spec, true);
    var both := GetGroupPerms(groups1 + groups2, spec, true);
    forall res, a | res in both
      ensures both[res].Get(a) == (t1[res].Get(a) && t2[res].Get(a))
    {
      BlackGroupUnion(res, groups1, groups2, a, spec);
    }
    CombineBlackOfSameResources(t1, t2, both);
  }

  // ---------------------------------------------------------------------------
  // Inversion
  // ---------------------------------------------------------------------------

  /** Inverting twice gives back the original table. */
  lemma InvertInvolutive(t: Table)
    ensures InvertResults(InvertResults(t)) == t
  {
  }

  // ---------------------------------------------------------------------------
  // Merging
  // ---------------------------------------------------------------------------

  /** The order of two whitelist results does not matter. */
  lemma CombineWhiteCommutes(w1: Table, w2: Table)
    ensures CombineWhiteResults(w1, w2) == CombineWhiteResults(w2, w1)
  {
  }

  /** The order of two blacklist results does not matter. */
  lemma CombineBlackCommutes(b1: Table, b2: Table)
    ensures CombineBlackResults(b1, b2) == CombineBlackResults(b2, b1)
  {
  }

  /**
   On two results over the same resources, the whitelist merge is the
   action-by-action OR.
   */
  lemma CombineWhiteOfSameResources(w1: Table, w2: Table, t: Table)
    requires w1.Keys == t.Keys && w2.Keys == t.Keys
    requires forall res, a :: res in t ==> t[res].Get(a) == (w1[res].Get(a) || w2[res].Get(a))
    ensures CombineWhiteResults(w1, w2) == t
  {
  }

  /**
   On two results over the same resources, the blacklist merge is the
   action-by-action AND.
   */
  lemma CombineBlackOfSameResources(b1: Table, b2: Table, t: Table)
    requires b1.Keys == t.Keys && b2.Keys == t.Keys
    requires forall res, a :: res in t ==> t[res].Get(a) == (b1[res].Get(a) && b2[res].Get(a))
    ensures CombineBlackResults(b1, b2) == t
  {
  }

  /** Merging with an empty result changes nothing, in each of the three merges. */
  lemma CombineWithEmpty(t: Table)
    ensures CombineWhiteResults(t, map[]) == t
    ensures CombineBlackResults(t, map[]) == t
    ensures CombineWhiteAndBlackResults(t, map[]) == t
  {
  }

  /**
   A whitelist/blacklist merge grants nothing the whitelist does not grant;
   in particular an empty whitelist gives no permission on any resource.
   */
  lemma WhiteAndBlackBoundedByWhite(white: Table, black: Table)
    ensures forall res, a :: Granted(CombineWhiteAndBlackResults(white, black), res, a) ==>
      Granted(white, res, a) && !Revoked(black, res, a)
    ensures forall res, a :: !Granted(CombineWhiteAndBlackResults(map[], black), res, a)
  {
  }

  /**
   Inversion turns a whitelist merge into a blacklist merge of the inverted
   results: grant-wins and revoke-wins are duals.
   */
  lemma InvertWhiteIsBlackOfInverted(t1: Table, t2: Table)
    ensures InvertResults(CombineWhiteResults(t1, t2))
         == CombineBlackResults(InvertResults(t1), InvertResults(t2))
  {
    var lhs := InvertResults(CombineWhiteResults(t1, t2));
    var rhs := CombineBlackResults(InvertResults(t1), InvertResults(t2));
    TableExtensional(lhs, rhs);
  }

  /** Inversion turns a blacklist merge into a whitelist merge of the inverted results. */
  lemma InvertBlackIsWhiteOfInverted(t1: Table, t2: Table)
    ensures InvertResults(CombineBlackResults(t1, t2))
         == CombineWhiteResults(InvertResults(t1), InvertResults(t2))
  {
    var lhs := InvertResults(CombineBlackResults(t1, t2));
    var rhs := CombineWhiteResults(InvertResults(t1), InvertResults(t2));
    TableExtensional(lhs, rhs);
  }
}

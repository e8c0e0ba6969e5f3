/**
 The data model of group-based CRUD permissions: the four actions, the
 resolved permission record of a resource, a group's (possibly partial)
 entry in a permission specification, and the two kinds of mapping the
 operations consume and produce.
 */
module PermTypes {

  /** The four actions a permission is asked about: create, read, update, delete. */
  datatype Action = C | R | U | D

  /** A resolved permission record: one boolean for each action, never missing. */
  datatype Crud = Crud(c: bool, r: bool, u: bool, d: bool)
  {
    /** The value this record holds for action `a`. */
    function Get(a: Action): bool
    {
      match a
      case C => c
      case R => r
      case U => u
      case D => d
    }

    /** The record with every action's value negated. */
    function Negate(): (n: Crud)
      ensures forall a :: n.Get(a) == !Get(a)
    {
      Crud(!c, !r, !u, !d)
    }
  }

  /** The record that holds `v` for every action. */
  function Uniform(v: bool): (rec: Crud)
    ensures forall a :: rec.Get(a) == v
  {
    Crud(v, v, v, v)
  }

  /** Two records that agree on every action are the same record. */
  lemma CrudExtensional(x: Crud, y: Crud)
    requires forall a :: x.Get(a) == y.Get(a)
    ensures x == y
  {
    assert x.Get(C) == y.Get(C) && x.Get(R) == y.Get(R);
    assert x.Get(U) == y.Get(U) && x.Get(D) == y.Get(D);
  }

  type Resource = string
  type Group = string

  /**
   A group's entry for one resource in a permission specification. It may
   leave actions out; an action it does not mention is not granted.
   */
  type Rule = map<Action, bool>

  /** resource -> group -> rule */
  type PermSpec = map<Resource, map<Group, Rule>>

  /** resource -> resolved record: what evaluation and combination produce. */
  type Table = map<Resource, Crud>

  /** Two tables with the same resources whose records agree on every action are equal. */
  lemma TableExtensional(t1: Table, t2: Table)
    requires t1.Keys == t2.Keys
    requires forall res, a :: res in t1 ==> t1[res].Get(a) == t2[res].Get(a)
    ensures t1 == t2
  {
    forall res | res in t1
      ensures t1[res] == t2[res]
    {
      CrudExtensional(t1[res], t2[res]);
    }
  }

  /** Whether `rule` grants `a`; a missing action reads as not granted. */
  predicate Grants(rule: Rule, a: Action)
  {
    a in rule && rule[a]
  }

  /** Table `t` has an entry for `res` and that entry grants `a`. */
  predicate Granted(t: Table, res: Resource, a: Action)
  {
    res in t && t[res].Get(a)
  }

  /** Table `t` has an entry for `res` and that entry revokes `a`. */
  predicate Revoked(t: Table, res: Resource, a: Action)
  {
    res in t && !t[res].Get(a)
  }
}

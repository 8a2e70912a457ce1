/**
  The two user backends side by side, observed through the same question: which
  directed friendship edges exist, and with which status.
 */
module Backends {
  import opened Model
  import InMemoryUsers
  import UserDb

  /** A graph and a table that show the same edges. */
  ghost predicate SameEdges(g: InMemoryUsers.Graph, t: UserDb.Table) {
    forall a, b :: InMemoryUsers.Edge(g, a, b) == UserDb.Edge(t, a, b)
  }

  /** Adding a friend is the same operation in both backends. */
  lemma AddAgrees(g: InMemoryUsers.Graph, t: UserDb.Table, u: int, f: int, s: FriendshipStatus)
    requires SameEdges(g, t)
    ensures SameEdges(InMemoryUsers.Link(g, u, f, s), UserDb.Upsert(t, u, f, s))
  {
    InMemoryUsers.LinkEdges(g, u, f, s);
  }

  /** After a mutual request, removing a friend clears both directions in memory but
      only the requester's row in the table. */
  lemma RemoveDiverges(g: InMemoryUsers.Graph, t: UserDb.Table, a: int, b: int)
    requires SameEdges(g, t) && a != b
    ensures var g' := InMemoryUsers.Link(InMemoryUsers.Link(g, a, b, Pending), b, a, Pending);
            var t' := UserDb.Upsert(UserDb.Upsert(t, a, b, Pending), b, a, Pending);
            && SameEdges(g', t')
            && InMemoryUsers.Edge(InMemoryUsers.Unlink(g', a, b), b, a) == None
            && UserDb.Edge(UserDb.DeleteRow(t', a, b), b, a) == Some(Pending)
  {
    var g1 := InMemoryUsers.Link(g, a, b, Pending);
    var t1 := UserDb.Upsert(t, a, b, Pending);
    AddAgrees(g, t, a, b, Pending);
    AddAgrees(g1, t1, b, a, Pending);
    var g' := InMemoryUsers.Link(g1, b, a, Pending);
    InMemoryUsers.UnlinkEdges(g', a, b);
    UserDb.DeleteRowEdges(UserDb.Upsert(t1, b, a, Pending), a, b);
  }

  /** Confirming a request that was never made creates a confirmed edge in memory and
      no row in the table. */
  lemma ConfirmDiverges(g: InMemoryUsers.Graph, t: UserDb.Table, u: int, f: int)
    requires SameEdges(g, t) && UserDb.Edge(t, f, u) == None
    ensures InMemoryUsers.Edge(InMemoryUsers.Confirm(g, u, f), f, u) == Some(Confirmed)
    ensures UserDb.Edge(UserDb.ConfirmRow(t, u, f), f, u) == None
  {
    InMemoryUsers.ConfirmEdges(g, u, f);
    UserDb.ConfirmRowEdges(t, u, f);
  }

  /** When the request f -> u exists, confirming it agrees on that edge; memory alone may
      also touch u -> f. */
  lemma ConfirmAgreesOnRequest(g: InMemoryUsers.Graph, t: UserDb.Table, u: int, f: int)
    requires SameEdges(g, t) && UserDb.Edge(t, f, u).Some?
    ensures InMemoryUsers.Edge(InMemoryUsers.Confirm(g, u, f), f, u) == UserDb.Edge(UserDb.ConfirmRow(t, u, f), f, u)
    ensures forall a, b :: (a != u || b != f) && (a != f || b != u) ==>
              InMemoryUsers.Edge(InMemoryUsers.Confirm(g, u, f), a, b) == UserDb.Edge(UserDb.ConfirmRow(t, u, f), a, b)
  {
    InMemoryUsers.ConfirmEdges(g, u, f);
    UserDb.ConfirmRowEdges(t, u, f);
  }
}

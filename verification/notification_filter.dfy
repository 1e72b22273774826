/** `pipes_with_notifications`: the pipes whose metadata carries a non-empty
    `notifications` object, in input order. */
module NotificationFilter {
  import opened Seqs
  import opened Pipes

  /** The test of the filter: `metadata` present, `notifications` present in it,
      and `len(notifications) != 0`, which holds when the object has any key at
      all. Whether `rules` is present or non-empty is not examined. */
  predicate HasNotifications(p: Pipe)
    ensures HasNotifications(p) <==>
      && p.effective.metadata.Some?
      && p.effective.metadata.value.notifications.Some?
      && var n := p.effective.metadata.value.notifications.value;
         n.rules.Some? || exists k :: k in n.otherKeys && k != "rules"
  {
    match p.effective.metadata
    case None => false
    case Some(m) =>
      match m.notifications
      case None => false
      case Some(n) => NotificationsSizeNonZero(n); n.Size() != 0
  }

  /** A `notifications` object has non-zero length exactly when it holds the
      `rules` key or some other key. */
  lemma NotificationsSizeNonZero(n: Notifications)
    ensures n.Size() != 0 <==> n.rules.Some? || exists k :: k in n.otherKeys && k != "rules"
  {
  }

  /** The pipes that pass the test, in input order. */
  function PipesWithNotifications(pipes: seq<Pipe>): (r: seq<Pipe>)
    ensures forall p :: p in r <==> p in pipes && HasNotifications(p)
    ensures IsSubsequence(r, pipes)
  {
    FilterIsSubsequence(HasNotifications, pipes);
    Filter(HasNotifications, pipes)
  }

  /** The result holds exactly the pipes at the positions that pass the test,
      in increasing position order; every other pipe is dropped. */
  lemma {:induction false} PipesWithNotificationsPositions(pipes: seq<Pipe>)
    ensures var idx := KeptIndices(HasNotifications, pipes);
      && IsSubsequenceAt(PipesWithNotifications(pipes), pipes, idx)
      && forall k :: 0 <= k < |pipes| ==> (k in idx <==> HasNotifications(pipes[k]))
  {
    FilterSelectsKeptPositions(HasNotifications, pipes);
  }
}

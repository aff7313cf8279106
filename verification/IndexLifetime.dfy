/** How long the index of a user's sessions lives beside the sessions in it. The scripts
    compare lifetimes in the whole seconds that Redis reports, rounded to the nearest. */
module IndexLifetime {

  /** A key is absent, kept for good, or gone after some milliseconds. */
  datatype Lifetime = Absent | Kept | Expiring(left: nat)

  function ReportedSeconds(left: nat): nat {
    (left + 500) / 1000
  }

  /** What creating or rotating a session of `ttl` seconds does to the index. */
  function Extend(index: Lifetime, ttl: nat): Lifetime {
    match index
    case Absent => Expiring(1000 * ttl)
    case Kept => Kept
    case Expiring(left) => if ReportedSeconds(left) < ttl then Expiring(1000 * ttl) else index
  }

  function After(index: Lifetime, elapsed: nat): Lifetime {
    match index
    case Expiring(left) => if elapsed < left then Expiring(left - elapsed) else Absent
    case _ => index
  }

  /** The index is still there when the session of `ttl` seconds ends. */
  predicate Outlives(index: Lifetime, ttl: nat) {
    index.Kept? || (index.Expiring? && 1000 * ttl <= index.left)
  }

  /** The index lives as long as the session exactly unless its remaining life was
      short by at most half a second; then it stays short by just that. */
  lemma OutlivesExactlyWhen(index: Lifetime, ttl: nat)
    ensures Outlives(Extend(index, ttl), ttl)
       <==> !(index.Expiring? && index.left < 1000 * ttl <= index.left + 500)
    ensures !Outlives(Extend(index, ttl), ttl) ==> Extend(index, ttl) == index
  {
  }

  /** Two sessions of one lifetime, opened `gap` milliseconds apart: the second ends
      without an index exactly when at most half a second lay between them. */
  lemma SecondSessionLosesIndexExactlyWhen(ttl: nat, gap: nat)
    requires ttl > 0
    ensures var first := Extend(Absent, ttl);
            !Outlives(Extend(After(first, gap), ttl), ttl) <==> 0 < gap <= 500
  {
  }
}

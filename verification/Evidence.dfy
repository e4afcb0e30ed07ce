/**
 Tamper evidence, as a statement about any digest function. Where one chained line stands in two trails whose
 lines so far have no finding of the chain, the lines ahead of it agree byte for byte, unless the two readings
 hashed two different byte strings to one digest.
 */
module Evidence {
  import opened Octets
  import opened Chain

  /** The byte strings a reading of the first n lines hashes: its lines, and what stood before each. */
  function Hashed(lines: seq<Bytes>, n: nat): set<Bytes>
    requires n <= |lines|
  {
    (set i | 0 <= i < n :: lines[i]) + (set i | 0 <= i < n :: Join(lines[..i]))
  }

  /** Two different byte strings with one digest, the one hashed in reading a, the other in reading b. */
  ghost predicate Collide(h: Hash, a: seq<Bytes>, b: seq<Bytes>, n: nat)
    requires n <= |a| && n <= |b|
  {
    exists x: Bytes, y: Bytes :: x in Hashed(a, n) && y in Hashed(b, n) && x != y && DigestOf(h, x) == DigestOf(h, y)
  }

  lemma CollideFurther(h: Hash, a: seq<Bytes>, b: seq<Bytes>, k: nat, n: nat)
    requires k <= n <= |a| && n <= |b|
    requires Collide(h, a, b, k)
    ensures Collide(h, a, b, n)
  {
    var x: Bytes, y: Bytes :| x in Hashed(a, k) && y in Hashed(b, k) && x != y && DigestOf(h, x) == DigestOf(h, y);
    assert x in Hashed(a, n) && y in Hashed(b, n);
  }

  lemma LinesEqualOrCollide(h: Hash, a: seq<Bytes>, b: seq<Bytes>, i: nat)
    requires i < |a| && i < |b| && DigestOf(h, a[i]) == DigestOf(h, b[i])
    ensures a[i] == b[i] || Collide(h, a, b, i + 1)
  {
    hide Join;
    assert a[i] in Hashed(a, i + 1) && b[i] in Hashed(b, i + 1);
  }

  lemma PrefixesEqualOrCollide(h: Hash, a: seq<Bytes>, b: seq<Bytes>, i: nat)
    requires i < |a| && i < |b| && DigestOf(h, Join(a[..i])) == DigestOf(h, Join(b[..i]))
    requires AreLines(a) && AreLines(b)
    ensures a[..i] == b[..i] || Collide(h, a, b, i + 1)
  {
    hide Join;
    assert Join(a[..i]) in Hashed(a, i + 1) && Join(b[..i]) in Hashed(b, i + 1);
    if Join(a[..i]) == Join(b[..i]) {
      JoinInjective(a[..i], b[..i]);
    }
  }

  /** A line holds no newline and a nonempty prefix ends in one, so the one is never hashed as the other. */
  lemma LineIsNoPrefix(h: Hash, a: seq<Bytes>, b: seq<Bytes>, i: nat)
    requires 0 < i < |a| && i < |b| && DigestOf(h, a[i - 1]) == DigestOf(h, Join(b[..i]))
    requires AreLines(a)
    ensures Collide(h, a, b, i + 1) && Collide(h, b, a, i + 1)
  {
    JoinEmptyOrEnds(b[..i]);
    assert a[i - 1] != Join(b[..i]);
    assert a[i - 1] in Hashed(a, i + 1) && Join(b[..i]) in Hashed(b, i + 1);
  }

  /** The same head at one place of two trails: the lines before it are the same. */
  lemma {:induction false} HeadBinds(h: Hash, a: seq<Bytes>, b: seq<Bytes>, i: nat)
    requires AreLines(a) && AreLines(b) && i < |a| && i < |b|
    requires SoundThrough(h, a, i) && SoundThrough(h, b, i)
    requires HeadBefore(h, a, i).Some? && HeadBefore(h, b, i).Some?
    requires HeadBefore(h, a, i).value.previous == HeadBefore(h, b, i).value.previous
    requires i > 0 ==> !Damaged(a, i - 1) && !Damaged(b, i - 1)
    ensures a[..i] == b[..i] || Collide(h, a, b, i + 1)
    decreases i, 3
  {
    hide LinkOf, Excuses, LineFindings, Collide, Join, LastTrail;
    if i > 0 && Chained(a[i - 1]) && Chained(b[i - 1]) {
      LinkedLinesBind(h, a, b, i);
    } else if i > 0 && Chained(a[i - 1]) {
      LineIsNoPrefix(h, a, b, i);
    } else if i > 0 && Chained(b[i - 1]) {
      LineIsNoPrefix(h, b, a, i);
    } else {
      PrefixesEqualOrCollide(h, a, b, i);
    }
  }

  lemma {:induction false} LinkedLinesBind(h: Hash, a: seq<Bytes>, b: seq<Bytes>, i: nat)
    requires AreLines(a) && AreLines(b) && 0 < i < |a| && i < |b|
    requires SoundThrough(h, a, i) && SoundThrough(h, b, i)
    requires Chained(a[i - 1]) && Chained(b[i - 1]) && DigestOf(h, a[i - 1]) == DigestOf(h, b[i - 1])
    requires !Damaged(a, i - 1) && !Damaged(b, i - 1)
    ensures a[..i] == b[..i] || Collide(h, a, b, i + 1)
    decreases i, 2
  {
    hide LinkOf, Excuses, LineFindings, Collide, Join;
    LinesEqualOrCollide(h, a, b, i - 1);
    if Collide(h, a, b, i) {
      CollideFurther(h, a, b, i, i + 1);
    } else {
      ChainedLineBinds(h, a, b, i, i);
    }
  }

  /** A line checked and found sound follows a head that can be known, which its previous names. */
  lemma SoundLineLinks(h: Hash, lines: seq<Bytes>, i: nat)
    requires i < |lines| && SoundThrough(h, lines, i + 1)
    requires Chained(lines[i]) && !Damaged(lines, i)
    ensures LinkOf(lines[i]).value.sequence == i + 1
    ensures OfDiscontinuityKind(lines[i]) ==> Excuses(lines, i)
    ensures Expected(h, lines, i).Some?
    ensures LinkOf(lines[i]).value.previous == Expected(h, lines, i).value.previous
  {
    hide LinkOf, LastTrail, Join, OfDiscontinuityKind, DamageNamedBy;
    assert LineFindings(h, lines, i) == [];
    var from := if Excuses(lines, i) then i - 1 else i;
    if from > 0 {
      SoundLineIsRead(h, lines, from - 1);
    }
  }

  lemma SoundLineIsRead(h: Hash, lines: seq<Bytes>, i: nat)
    requires i < |lines| && SoundThrough(h, lines, i + 1)
    ensures !Oversized(lines[i])
  {
    hide LinkOf, HeadBefore, OfDiscontinuityKind, DamageNamedBy;
    assert Damaged(lines, i) || LineFindings(h, lines, i) == [];
  }

  lemma SoundThroughLess(h: Hash, lines: seq<Bytes>, k: nat, n: nat)
    requires k <= n <= |lines| && SoundThrough(h, lines, n)
    ensures SoundThrough(h, lines, k)
  {
    hide LineFindings, Damaged;
  }

  /**
   The main result. Let an undamaged chained line stand in two trails, wherever it does, and let both be sound
   through it. Then it has one number in both, and the lines up to it are one list; or a collision is exhibited
   among the byte strings that the two readings hashed.
   */
  lemma {:induction false} ChainedLineBinds(h: Hash, a: seq<Bytes>, b: seq<Bytes>, n: nat, m: nat)
    requires AreLines(a) && AreLines(b)
    requires 0 < n <= |a| && 0 < m <= |b| && a[n - 1] == b[m - 1] && Chained(a[n - 1])
    requires !Damaged(a, n - 1) && !Damaged(b, m - 1)
    requires SoundThrough(h, a, n) && SoundThrough(h, b, m)
    ensures n == m
    ensures a[..n] == b[..n] || Collide(h, a, b, n)
    decreases n, 1
  {
    hide LinkOf, HeadBefore, LineFindings, Collide, OfDiscontinuityKind, DamageNamedBy;
    SoundLineLinks(h, a, n - 1);
    SoundLineLinks(h, b, m - 1);
    SoundThroughLess(h, a, n - 1, n);
    SoundThroughLess(h, b, n - 1, n);
    if !OfDiscontinuityKind(a[n - 1]) {
      HeadBinds(h, a, b, n - 1);
    } else {
      ExcusedDigest(h, a, n - 1);
      ExcusedDigest(h, b, n - 1);
      SoundThroughLess(h, a, n - 2, n);
      SoundThroughLess(h, b, n - 2, n);
      DiscontinuityBinds(h, a, b, n);
    }
    if a[..n - 1] == b[..n - 1] {
      assert a[..n] == a[..n - 1] + [a[n - 1]];
      assert b[..n] == b[..n - 1] + [b[n - 1]];
    }
  }

  /** A sound discontinuity states the digest of the line it excuses. */
  lemma ExcusedDigest(h: Hash, lines: seq<Bytes>, i: nat)
    requires i < |lines| && Excuses(lines, i)
    requires SoundThrough(h, lines, i + 1) && !Damaged(lines, i)
    ensures DigestOf(h, lines[i - 1]) == DamageNamedBy(lines[i]).value.digest
  {
    hide LinkOf, Expected, OfDiscontinuityKind, DamageNamedBy;
  }

  /** A discontinuity binds the line it excuses by its digest, and everything before that by its link. */
  lemma {:induction false} DiscontinuityBinds(h: Hash, a: seq<Bytes>, b: seq<Bytes>, n: nat)
    requires AreLines(a) && AreLines(b)
    requires 1 < n <= |a| && n <= |b|
    requires Excuses(a, n - 1) && Excuses(b, n - 1)
    requires DigestOf(h, a[n - 2]) == DigestOf(h, b[n - 2])
    requires SoundThrough(h, a, n - 2) && SoundThrough(h, b, n - 2)
    requires HeadBefore(h, a, n - 2).Some? && HeadBefore(h, b, n - 2).Some?
    requires HeadBefore(h, a, n - 2).value.previous == HeadBefore(h, b, n - 2).value.previous
    ensures a[..n - 1] == b[..n - 1] || Collide(h, a, b, n)
    decreases n, 0
  {
    hide LinkOf, HeadBefore, LineFindings, Collide, OfDiscontinuityKind, DamageNamedBy;
    LinesEqualOrCollide(h, a, b, n - 2);
    HeadBinds(h, a, b, n - 2);
    if Collide(h, a, b, n - 1) {
      CollideFurther(h, a, b, n - 1, n);
    } else {
      assert a[..n - 1] == a[..n - 2] + [a[n - 2]];
      assert b[..n - 1] == b[..n - 2] + [b[n - 2]];
    }
  }
}

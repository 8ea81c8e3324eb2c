/** Comparison of path strings: strcmp, strncmp and the comparison the offset tree uses
    (lib/mounts.c, tree_mapent_cmp).
 */
module PathOrder {

  /** strcmp, as -1, 0 or 1 */
  function StrCmp(a: string, b: string): int {
    if a == [] && b == [] then 0
    else if a == [] then -1
    else if b == [] then 1
    else if a[0] < b[0] then -1
    else if a[0] > b[0] then 1
    else StrCmp(a[1..], b[1..])
  }

  function Prefix(s: string, n: nat): string {
    if n <= |s| then s[..n] else s
  }

  /** strncmp */
  function StrNCmp(a: string, b: string, n: nat): int {
    StrCmp(Prefix(a, n), Prefix(b, n))
  }

  predicate Less(a: string, b: string) {
    StrCmp(a, b) < 0
  }

  /** tree_mapent_cmp of the new entry `me` against the node key `n` */
  function MapentCmp(n: string, me: string): int {
    if StrNCmp(me, n, |n|) == 0 && |me| < |n| then -1
    else if StrNCmp(me, n, |n|) == 0 && |me| > |n| then 1
    else StrCmp(me, n)
  }

  // ----- a strict total order

  lemma {:induction false} CmpZero(a: string, b: string)
    ensures StrCmp(a, b) == 0 <==> a == b
  {
    if a == [] || b == [] || a[0] != b[0] {
    } else {
      CmpZero(a[1..], b[1..]);
      assert a == [a[0]] + a[1..] && b == [b[0]] + b[1..];
    }
  }

  lemma CmpFlip(a: string, b: string)
    ensures StrCmp(a, b) == -StrCmp(b, a)
  {
  }

  lemma {:induction false} LessTrans(a: string, b: string, c: string)
    requires Less(a, b) && Less(b, c)
    ensures Less(a, c)
  {
    if a == [] || a[0] != b[0] || b[0] != c[0] {
    } else {
      LessTrans(a[1..], b[1..], c[1..]);
    }
  }

  /** Exactly one of less, equal and greater. */
  lemma Trichotomy(a: string, b: string)
    ensures Less(a, b) ==> a != b && !Less(b, a)
    ensures !Less(a, b) && !Less(b, a) ==> a == b
  {
    CmpZero(a, b);
    CmpFlip(a, b);
  }

  lemma {:induction false} CmpOfExtension(a: string, b: string)
    requires b <= a
    ensures StrCmp(a, b) == if |a| > |b| then 1 else 0
  {
    if b == [] {
    } else {
      CmpOfExtension(a[1..], b[1..]);
    }
  }

  /** The offset tree's comparison is exactly strcmp: its length tests only repeat what
      strcmp says of a key and its extension. */
  lemma MapentCmpIsStrCmp(n: string, me: string)
    ensures MapentCmp(n, me) == StrCmp(me, n)
  {
    assert Prefix(n, |n|) == n;
    CmpZero(Prefix(me, |n|), n);
    if StrNCmp(me, n, |n|) == 0 {
      assert n <= me;
      CmpOfExtension(me, n);
    }
  }

  predicate Between(p: string, k: string, c: string) {
    || (!Less(k, p) && !Less(c, k))
    || (!Less(k, c) && !Less(p, k))
  }

  /** Every string between a path and one of its extensions extends the path. */
  lemma BetweenExtends(p: string, k: string, c: string)
    requires p <= c && Between(p, k, c)
    ensures p <= k
  {
    CmpOfExtension(c, p);
    CmpFlip(c, p);
    if Less(p, c) && !Less(k, p) && !Less(c, k) {
      SqueezedExtends(p, k, c);
    } else {
      // p is not above c, so the only string from c up to p is p itself
      Trichotomy(p, c);
      if !Less(k, c) && !Less(p, k) {
        Trichotomy(k, p);
        Trichotomy(k, c);
        if Less(k, p) && Less(p, c) {
          LessTrans(k, p, c);
        }
      } else {
        Trichotomy(k, p);
      }
    }
  }

  lemma {:induction false} SqueezedExtends(p: string, k: string, c: string)
    requires p <= c && !Less(k, p) && !Less(c, k)
    ensures p <= k
  {
    if p == [] {
    } else if k == [] {
    } else if k[0] == p[0] {
      SqueezedExtends(p[1..], k[1..], c[1..]);
      assert p == [p[0]] + p[1..] && k == [k[0]] + k[1..];
    } else {
      CmpFlip(c, k);
    }
  }
}

/**
 * Lexicographic order on names and the `/`-joined form of a path. Names
 * are Dafny strings of code points. Go compares names as raw bytes; for a
 * name that is valid UTF-8 the byte order and the code-point order agree,
 * because UTF-8 encoding preserves code-point order. A tree entry name that
 * is not valid UTF-8 has no counterpart here.
 */
module PathOrder {

  /** `a` sorts before or equal to `b`. */
  predicate StrLe(a: string, b: string)
  {
    |a| == 0 || (|b| > 0 && (a[0] < b[0] || (a[0] == b[0] && StrLe(a[1..], b[1..]))))
  }

  /** `a` sorts strictly before `b`. */
  predicate StrLt(a: string, b: string)
  {
    StrLe(a, b) && a != b
  }

  lemma {:induction false} StrLeReflexive(a: string)
    ensures StrLe(a, a)
  {
    if |a| > 0 {
      StrLeReflexive(a[1..]);
    }
  }

  lemma {:induction false} StrLeTotal(a: string, b: string)
    ensures StrLe(a, b) || StrLe(b, a)
  {
    if |a| > 0 && |b| > 0 && a[0] == b[0] {
      StrLeTotal(a[1..], b[1..]);
    }
  }

  lemma {:induction false} StrLeAntisymmetric(a: string, b: string)
    requires StrLe(a, b) && StrLe(b, a)
    ensures a == b
  {
    if |a| > 0 && |b| > 0 {
      StrLeAntisymmetric(a[1..], b[1..]);
      assert a == [a[0]] + a[1..];
      assert b == [b[0]] + b[1..];
    }
  }

  lemma {:induction false} StrLeTransitive(a: string, b: string, c: string)
    requires StrLe(a, b) && StrLe(b, c)
    ensures StrLe(a, c)
  {
    if |a| > 0 && |b| > 0 && |c| > 0 && a[0] == b[0] && b[0] == c[0] {
      StrLeTransitive(a[1..], b[1..], c[1..]);
    }
  }

  /** Of two distinct names exactly one sorts strictly first. */
  lemma StrLtTrichotomy(a: string, b: string)
    requires a != b
    ensures StrLt(a, b) != StrLt(b, a)
  {
    StrLeTotal(a, b);
    if StrLe(a, b) && StrLe(b, a) {
      StrLeAntisymmetric(a, b);
    }
  }

  /** The path's names joined with `/` separators, as noder paths print. */
  function Join(names: seq<string>): (r: string)
    ensures |names| == 0 ==> r == ""
    ensures |names| == 1 ==> r == names[0]
  {
    if |names| == 0 then ""
    else if |names| == 1 then names[0]
    else names[0] + "/" + Join(names[1..])
  }

  /** No name on the path contains the separator. */
  predicate SlashFree(p: seq<string>)
  {
    forall k :: 0 <= k < |p| ==> '/' !in p[k]
  }

  /** Index of the first `/` in a string, or its length when it has none. */
  function FirstSlash(s: string): (r: nat)
    ensures r <= |s|
  {
    if |s| == 0 || s[0] == '/' then 0 else 1 + FirstSlash(s[1..])
  }

  lemma {:induction false} FirstSlashAfter(a: string, r: string)
    requires '/' !in a
    ensures FirstSlash(a + "/" + r) == |a|
  {
    if |a| > 0 {
      assert (a + "/" + r)[1..] == a[1..] + "/" + r;
      FirstSlashAfter(a[1..], r);
    }
  }

  /** A join of slash-free names contains a separator exactly when it joins two or more. */
  lemma JoinHasSlash(p: seq<string>)
    requires |p| > 0 && SlashFree(p)
    ensures '/' in Join(p) <==> |p| > 1
  {
    if |p| > 1 {
      assert Join(p)[|p[0]|] == '/';
    }
  }

  /** Joining slash-free names loses nothing: distinct non-empty paths print differently. */
  lemma {:induction false} JoinInjective(p: seq<string>, q: seq<string>)
    requires |p| > 0 && |q| > 0
    requires SlashFree(p) && SlashFree(q)
    requires Join(p) == Join(q)
    ensures p == q
  {
    JoinHasSlash(p);
    JoinHasSlash(q);
    if |p| > 1 {
      var jp, jq := Join(p), Join(q);
      FirstSlashAfter(p[0], Join(p[1..]));
      FirstSlashAfter(q[0], Join(q[1..]));
      assert p[0] == jp[..|p[0]|] == jq[..|q[0]|] == q[0];
      assert Join(p[1..]) == jp[|p[0]| + 1..] == jq[|q[0]| + 1..] == Join(q[1..]);
      assert SlashFree(p[1..]) && SlashFree(q[1..]) by {
        forall k | 0 <= k < |p| - 1 ensures '/' !in p[1..][k] { assert p[1..][k] == p[k + 1]; }
        forall k | 0 <= k < |q| - 1 ensures '/' !in q[1..][k] { assert q[1..][k] == q[k + 1]; }
      }
      JoinInjective(p[1..], q[1..]);
      assert p == [p[0]] + p[1..] && q == [q[0]] + q[1..];
    }
  }
}

/** Key paths: the segment sequences that address a value inside a document, and
    the dotted keys (`"fasterCraftingTime.hideoutSkillExpFix.enabled"`) that the
    section components split on `'.'` to obtain them. */
module KeyPath {

  type Path = seq<string>

  /** `s.split('.')`: never empty; an empty string gives `[""]`. */
  function Split(s: string): (p: Path)
    ensures |p| >= 1
  {
    if s == [] then [[]]
    else
      var t := Split(s[1..]);
      if s[0] == '.' then [[]] + t else [[s[0]] + t[0]] + t[1..]
  }

  /** `p.join('.')`, the inverse of `Split`. */
  function Join(p: Path): string
    requires |p| >= 1
  {
    if |p| == 1 then p[0] else p[0] + "." + Join(p[1..])
  }

  /** No segment holds a dot, so the path survives being joined and split again. */
  predicate Undotted(p: Path) {
    forall i :: 0 <= i < |p| ==> '.' !in p[i]
  }

  lemma {:induction false} JoinSplit(s: string)
    ensures Join(Split(s)) == s
  {
    if s != [] {
      var t := Split(s[1..]);
      JoinSplit(s[1..]);
      if s[0] == '.' {
        assert ([[]] + t)[1..] == t;
      } else {
        var p := [[s[0]] + t[0]] + t[1..];
        if |t| == 1 {
          assert Join(t) == t[0];
        } else {
          assert p[1..] == t[1..];
          assert Join(t) == t[0] + "." + Join(t[1..]);
        }
        assert s == [s[0]] + s[1..];
      }
    }
  }

  lemma {:induction false} SplitUndotted(a: string)
    requires '.' !in a
    ensures Split(a) == [a]
  {
    if a != [] {
      assert '.' !in a[1..] by {
        forall i | 0 <= i < |a[1..]| ensures a[1..][i] != '.' {
          assert a[1..][i] == a[i + 1];
        }
      }
      SplitUndotted(a[1..]);
      assert a == [a[0]] + a[1..];
    }
  }

  lemma {:induction false} SplitDot(a: string, s: string)
    requires '.' !in a
    ensures Split(a + "." + s) == [a] + Split(s)
  {
    if a == [] {
      assert a + "." + s == ['.'] + s;
      assert (['.'] + s)[1..] == s;
    } else {
      assert '.' !in a[1..] by {
        forall i | 0 <= i < |a[1..]| ensures a[1..][i] != '.' {
          assert a[1..][i] == a[i + 1];
        }
      }
      SplitDot(a[1..], s);
      var w := a + "." + s;
      assert w[0] == a[0] && w[1..] == a[1..] + "." + s;
      var t := Split(w[1..]);
      assert t == [a[1..]] + Split(s);
      assert [a[0]] + a[1..] == a;
    }
  }

  lemma {:induction false} SplitJoin(p: Path)
    requires |p| >= 1 && Undotted(p)
    ensures Split(Join(p)) == p
  {
    if |p| == 1 {
      SplitUndotted(p[0]);
    } else {
      assert Undotted(p[1..]) by {
        forall i | 0 <= i < |p[1..]| ensures '.' !in p[1..][i] {
          assert p[1..][i] == p[i + 1];
        }
      }
      SplitJoin(p[1..]);
      SplitDot(p[0], Join(p[1..]));
      assert p == [p[0]] + p[1..];
    }
  }

  /** The segments a patch walks through: every one but the last, as in the loop
      `for (i = 0; i < path.length - 1; ++i)`. */
  function Init(p: Path): (q: Path)
    ensures |p| >= 1 ==> q + [Final(p)] == p
  {
    if |p| == 0 then [] else p[..|p| - 1]
  }

  /** The key a patch assigns, `path[path.length - 1]`; for an empty path that
      expression is `undefined`, which becomes the property name "undefined". */
  function Final(p: Path): string {
    if |p| == 0 then "undefined" else p[|p| - 1]
  }

  /** Neither path is a prefix of the other: they address disjoint subtrees. */
  predicate Disjoint(p: Path, q: Path) {
    !(p <= q) && !(q <= p)
  }
}

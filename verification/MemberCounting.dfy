/**
 Counting member names over a set of interfaces: the number of conflict messages of the linker is the
 number of members that a family declares more than once.
 */
module MemberCounting {
  import opened InheritanceGraph

  ghost function UnionMembers(t: Table, s: set<Name>): set<Name>
    requires s <= t.Keys
  {
    set a, m | a in s && m in t[a].members :: m
  }

  ghost function TotalMembers(t: Table, s: set<Name>): nat
    requires s <= t.Keys
  {
    if s == {} then 0
    else
      var a :| a in s;
      |t[a].members| + TotalMembers(t, s - {a})
  }

  /** The sum does not depend on the order in which the set is traversed. */
  lemma {:induction false} TotalWithout(t: Table, s: set<Name>, a: Name)
    requires s <= t.Keys && a in s
    ensures TotalMembers(t, s) == |t[a].members| + TotalMembers(t, s - {a})
  {
    var b :| b in s && TotalMembers(t, s) == |t[b].members| + TotalMembers(t, s - {b});
    if a != b {
      TotalWithout(t, s - {b}, a);
      TotalWithout(t, s - {a}, b);
      assert s - {b} - {a} == s - {a} - {b};
    }
  }

  lemma UnionSize(x: set<Name>, y: set<Name>)
    ensures |x + y| == |x| + |y| - |x * y|
    ensures |x * y| == 0 <==> x !! y
  {
    assert x + y == x + (y - x);
    assert y == (y - x) + (x * y);
  }

  lemma UnionWith(t: Table, s: set<Name>, a: Name)
    requires s <= t.Keys && a in t
    ensures UnionMembers(t, s + {a}) == UnionMembers(t, s) + t[a].members
  {
  }

  lemma TotalWith(t: Table, s: set<Name>, a: Name)
    requires s <= t.Keys && a in t && a !in s
    ensures TotalMembers(t, s + {a}) == TotalMembers(t, s) + |t[a].members|
  {
    TotalWithout(t, s + {a}, a);
    assert s + {a} - {a} == s;
  }

  lemma DisjointWith(t: Table, s: set<Name>, a: Name)
    requires s <= t.Keys && a in t && a !in s
    ensures DisjointMembers(t, s + {a}) <==> DisjointMembers(t, s) && UnionMembers(t, s) !! t[a].members
  {
    if DisjointMembers(t, s + {a}) {
      forall b | b in s
        ensures t[b].members !! t[a].members
      {
        assert b in s + {a} && a in s + {a};
      }
    }
    if UnionMembers(t, s) !! t[a].members {
      forall b | b in s
        ensures t[b].members !! t[a].members
      {
        assert t[b].members <= UnionMembers(t, s);
      }
    }
  }

  /** Counting with and without repetition agree exactly when no member name is repeated. */
  lemma {:induction false} NoRepetition(t: Table, s: set<Name>)
    requires s <= t.Keys
    ensures |UnionMembers(t, s)| <= TotalMembers(t, s)
    ensures |UnionMembers(t, s)| == TotalMembers(t, s) <==> DisjointMembers(t, s)
  {
    if s == {} {
      assert UnionMembers(t, s) == {} && DisjointMembers(t, s);
    } else {
      hide DisjointMembers, UnionMembers;
      var a :| a in s;
      var rest := s - {a};
      TotalWithout(t, s, a);
      NoRepetition(t, rest);
      UnionWith(t, rest, a);
      DisjointWith(t, rest, a);
      assert rest + {a} == s;
      UnionSize(UnionMembers(t, rest), t[a].members);
    }
  }
}

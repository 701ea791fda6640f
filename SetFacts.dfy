/** Cardinality facts about the sets the scripts build by visiting a set one
    element at a time. */
module SetFacts {

  /** The members of s that satisfy p. */
  function Filter(s: set<string>, p: string -> bool): (r: set<string>)
    ensures r <= s
  {
    set x | x in s && p(x)
  }

  /** Membership in Filter(s, p): exactly the members of s satisfying p. */
  lemma FilterSpec(s: set<string>, p: string -> bool)
    ensures forall x :: x in Filter(s, p) <==> x in s && p(x)
  {
  }

  lemma FilterStep(done: set<string>, x: string, p: string -> bool)
    ensures Filter(done + {x}, p) == if p(x) then Filter(done, p) + {x} else Filter(done, p)
  {
  }

  /** Visiting one more element x adds one to the count of members
      satisfying p exactly when x satisfies p. */
  lemma FilterAddOne(done: set<string>, x: string, p: string -> bool)
    requires x !in done
    ensures |Filter(done + {x}, p)| == |Filter(done, p)| + (if p(x) then 1 else 0)
  {
    if p(x) {
      assert Filter(done + {x}, p) == Filter(done, p) + {x};
    } else {
      assert Filter(done + {x}, p) == Filter(done, p);
    }
  }

  /** The image of s under f. */
  function Image(s: set<string>, f: string -> string): set<string> {
    set x | x in s :: f(x)
  }

  /** The image holds the value of f at each member of s, and nothing else. */
  lemma ImageSpec(s: set<string>, f: string -> string)
    ensures forall x :: x in s ==> f(x) in Image(s, f)
    ensures forall y :: y in Image(s, f) ==> exists x :: x in s && f(x) == y
  {
  }

  lemma ImageAddOne(s: set<string>, x: string, f: string -> string)
    ensures Image(s + {x}, f) == Image(s, f) + {f(x)}
  {
  }

  /** An image is never larger than the set it is taken of. */
  lemma {:induction false} ImageNoLarger(s: set<string>, f: string -> string)
    ensures |Image(s, f)| <= |s|
    decreases s
  {
    if s != {} {
      var x :| x in s;
      ImageNoLarger(s - {x}, f);
      assert s == (s - {x}) + {x};
      ImageAddOne(s - {x}, x, f);
    }
  }

  /** A subset is never larger than its superset. */
  lemma {:induction false} SubsetNoLarger(a: set<string>, b: set<string>)
    requires a <= b
    ensures |a| <= |b|
    decreases b
  {
    if a != {} {
      var x :| x in a;
      SubsetNoLarger(a - {x}, b - {x});
    }
  }
}

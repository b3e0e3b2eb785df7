/** Merging new entries into a list that may not be the one the record speaks of: when the result is right. */
module Stale {
  import opened Lex
  import opened Entries
  import opened Build

  /** One of b is e itself or beats it, so that e does not matter beside b. */
  ghost predicate Settled(e: Entry, b: set<Entry>) {
    e in b || exists n :: n in b && n.key == e.key && Better(n, e)
  }

  /** Every entry of es that is not a best one of a, and every best one of a that is not in es, is settled by b. */
  ghost predicate Harmless(es: seq<Entry>, a: set<Entry>, b: set<Entry>) {
    forall e :: (e in es <==> Best(e, a)) || Settled(e, b)
  }

  /** Everything in b beats everything in a: its file numbers are greater. */
  ghost predicate After(a: set<Entry>, b: set<Entry>) {
    forall e, n :: e in a && n in b ==> Better(n, e)
  }

  lemma BetterChain(e: Entry, f: Entry, g: Entry)
    ensures Better(e, f) && Better(f, g) ==> Better(e, g)
    ensures !Better(e, f) && !Better(f, e) ==> e.fileIdx == f.fileIdx && e.srcOff == f.srcOff
  {}

  /** Some best entry is at least as good as f. */
  lemma {:induction false} BestAbove(a: set<Entry>, f: Entry) returns (g: Entry)
    requires f in a
    ensures Best(g, a) && g.key == f.key && !Better(f, g)
    decreases |set x | x in a && Better(x, f)|
  {
    if h :| h in a && h.key == f.key && Better(h, f) {
      var above, above' := set x | x in a && Better(x, f), set x | x in a && Better(x, h);
      assert h in above && h !in above' && above' <= above;
      assert above' <= above - {h};
      FewerWithout(above, above', h);
      g := BestAbove(a, h);
      BetterChain(g, h, f);
    } else {
      g := f;
    }
  }

  lemma FewerWithout(s: set<Entry>, t: set<Entry>, h: Entry)
    requires h in s && t <= s - {h}
    ensures |t| < |s|
  {
    assert s == t + (s - t);
    assert h in s - t;
  }

  lemma SettledKey(e: Entry, b: set<Entry>) returns (n: Entry)
    requires Settled(e, b)
    ensures n in b && n.key == e.key && !Better(e, n)
  {
    if e in b {
      n := e;
    } else {
      n :| n in b && n.key == e.key && Better(n, e);
    }
  }

  /** The merge's choice is right for one entry: nothing in a or b beats it. */
  lemma HarmlessBest(o: Entry, es: seq<Entry>, a: set<Entry>, b: set<Entry>)
    requires Best(o, b + SetOf(es)) && Harmless(es, a, b)
    ensures Best(o, a + b)
  {
    hide Better, Settled;
    if o !in a + b {
      assert o in es && !Best(o, a);
      var n := SettledKey(o, b);
      NotSettled(o, es, b);
      assert false;
    }
    forall f | f in a + b && f.key == o.key ensures !Better(f, o) {
      if f in a {
        var g := BestAbove(a, f);
        if g in es {
          assert g in b + SetOf(es);
          BetterFirst(f, g, o);
        } else {
          var n := SettledKey(g, b);
          assert n in b + SetOf(es);
          BetterFirst(g, n, o);
          BetterFirst(f, g, o);
        }
      } else {
        assert f in b + SetOf(es);
      }
    }
  }

  /** f is not above g and g is not above o, so f is not above o. */
  lemma BetterFirst(f: Entry, g: Entry, o: Entry)
    ensures !Better(f, g) && !Better(g, o) ==> !Better(f, o)
  {}

  lemma NotSettled(o: Entry, es: seq<Entry>, b: set<Entry>)
    requires Best(o, b + SetOf(es)) && o !in b
    ensures !Settled(o, b)
  {
    forall n | n in b && n.key == o.key ensures !Better(n, o) {
      assert n in b + SetOf(es);
    }
  }

  /** A merge over a list whose differences do not matter gives what a merge over the recorded list gives. */
  lemma HarmlessIsRight(out: seq<Entry>, es: seq<Entry>, a: set<Entry>, b: set<Entry>)
    requires Canonical(out, b + SetOf(es)) && Harmless(es, a, b)
    ensures Canonical(out, a + b)
  {
    hide Ascending, Best, Settled, Harmless, SetOf;
    forall i | 0 <= i < |out| ensures Best(out[i], a + b) {
      BestOfMember(out, b + SetOf(es), i);
      HarmlessBest(out[i], es, a, b);
    }
    forall f | f in a + b ensures exists i :: 0 <= i < |out| && out[i].key == f.key {
      var g := HarmlessKey(es, a, b, f);
      var i := CanonicalEntry(out, b + SetOf(es), g);
    }
  }

  lemma HarmlessKey(es: seq<Entry>, a: set<Entry>, b: set<Entry>, f: Entry) returns (g: Entry)
    requires Harmless(es, a, b) && f in a + b
    ensures g in b + SetOf(es) && g.key == f.key
  {
    hide Better, Settled;
    g := f;
    if f !in b {
      g := BestAbove(a, f);
      if g !in es {
        g := SettledKey(g, b);
      }
    }
  }

  lemma SameKeySameEntry(es: seq<Entry>, e: Entry, f: Entry)
    requires Ascending(es) && e in es && f in es && e.key == f.key
    ensures e == f
  {
    Irreflexive(e.key);
  }

  /** Unsettled entries and their keys: what a right merge has for them. */
  lemma UnsettledIsListed(e: Entry, out: seq<Entry>, es: seq<Entry>, a: set<Entry>, b: set<Entry>)
    requires Ascending(es) && Consistent(a) && After(a, b) && Canonical(out, b + SetOf(es)) && Canonical(out, a + b)
    requires Best(e, a) && !Settled(e, b)
    ensures e in es
  {
    hide Ascending, Canonical;
    var j := CanonicalEntry(out, a + b, e);
    var o := out[j];
    BestOfMember(out, b + SetOf(es), j);
    assert o in a && Best(o, a);
    BestUnique(o, e, a);
  }

  lemma UnsettledIsBest(e: Entry, a: set<Entry>, b: set<Entry>)
    requires Best(e, a + b) && !Settled(e, b)
    ensures Best(e, a)
  {}

  /** An unsettled entry of es is what a merge may keep for its key. */
  lemma UnsettledIsKept(e: Entry, out: seq<Entry>, es: seq<Entry>, b: set<Entry>) returns (j: nat)
    requires Ascending(es) && e in es && !Settled(e, b) && Canonical(out, b + SetOf(es))
    ensures j < |out| && out[j].key == e.key && Best(e, b + SetOf(es))
  {
    hide Ascending, Canonical;
    var all := b + SetOf(es);
    j := CanonicalEntry(out, all, e);
    forall f | f in all && f.key == e.key ensures !Better(f, e) {
      if f in es { SameKeySameEntry(es, e, f); }
    }
  }

  /** If no two candidates name the same place, the merge is right if and only if the differences are harmless. */
  lemma MergeIsRightIff(out: seq<Entry>, es: seq<Entry>, a: set<Entry>, b: set<Entry>)
    requires Ascending(es) && Consistent(a) && After(a, b) && Canonical(out, b + SetOf(es))
    ensures Harmless(es, a, b) ==> Canonical(out, a + b)
    ensures Canonical(out, a + b) && Consistent(b + SetOf(es)) ==> Harmless(es, a, b)
  {
    hide Ascending, Canonical, Settled, Best, Consistent, After, SetOf;
    if Harmless(es, a, b) {
      HarmlessIsRight(out, es, a, b);
    }
    if Canonical(out, a + b) && Consistent(b + SetOf(es)) {
      forall e ensures (e in es <==> Best(e, a)) || Settled(e, b) {
        if !Settled(e, b) {
          if Best(e, a) { UnsettledIsListed(e, out, es, a, b); }
          if e in es {
            var j := UnsettledIsKept(e, out, es, b);
            BestOfMember(out, b + SetOf(es), j);
            BestUnique(out[j], e, b + SetOf(es));
            BestOfMember(out, a + b, j);
            UnsettledIsBest(e, a, b);
          }
        }
      }
    }
  }

  lemma Replaced(out: seq<Entry>, all: set<Entry>, j: nat, e: Entry)
    requires Canonical(out, all) && j < |out| && out[j].key == e.key && Best(e, all)
    ensures Canonical(out[j := e], all)
  {
    hide Best, Less;
    var out' := out[j := e];
    forall i | 0 <= i < |out| ensures out'[i].key == out[i].key {}
    forall f | f in all ensures exists i :: 0 <= i < |out'| && out'[i].key == f.key {
      var i :| 0 <= i < |out| && out[i].key == f.key;
      assert out'[i].key == f.key;
    }
  }

  /**
   * Two candidates for a key at the same place are a tie, and which of them a merge keeps depends
   * on its heap. Whatever it keeps, it is sure to be right if and only if the differences are harmless.
   */
  lemma MergeIsSureIff(out: seq<Entry>, es: seq<Entry>, a: set<Entry>, b: set<Entry>)
    requires Ascending(es) && Consistent(a) && After(a, b) && Canonical(out, b + SetOf(es))
    ensures (forall any :: Canonical(any, b + SetOf(es)) ==> Canonical(any, a + b)) <==> Harmless(es, a, b)
  {
    hide Ascending, Canonical, Settled, Best, Consistent, After, SetOf;
    if Harmless(es, a, b) {
      forall any | Canonical(any, b + SetOf(es)) ensures Canonical(any, a + b) {
        HarmlessIsRight(any, es, a, b);
      }
    }
    if forall any :: Canonical(any, b + SetOf(es)) ==> Canonical(any, a + b) {
      forall e ensures (e in es <==> Best(e, a)) || Settled(e, b) {
        if !Settled(e, b) {
          if Best(e, a) { UnsettledIsListed(e, out, es, a, b); }
          if e in es {
            var j := UnsettledIsKept(e, out, es, b);
            Replaced(out, b + SetOf(es), j, e);
            BestOfMember(out[j := e], a + b, j);
            UnsettledIsBest(e, a, b);
          }
        }
      }
    }
  }
}

// Links between things, none of which leads back to where it started: then each thing has a rank above those it links
// to. Valid documents are such: no fragment reaches itself through its spreads.
module Acyclicity {

  type Links<!T> = map<T, set<T>>

  /** Every link leads to something that has links of its own, if only none. */
  ghost predicate Closed<T>(links: Links<T>) {
    forall s <- links :: links[s] <= links.Keys
  }

  /** Following k + 1 links leads from s to t. */
  ghost predicate Steps<T>(k: nat, links: Links<T>, s: T, t: T) {
    s in links && (if k == 0 then t in links[s] else exists u <- links[s] :: Steps(k - 1, links, u, t))
  }

  ghost predicate Reaches<T>(links: Links<T>, s: T, t: T) {
    exists k: nat :: Steps(k, links, s, t)
  }

  ghost predicate Acyclic<T>(links: Links<T>) {
    forall s <- links :: !Reaches(links, s, s)
  }

  ghost predicate Ranks<T>(links: Links<T>, rank: map<T, nat>) {
    rank.Keys == links.Keys && forall s <- links, t <- links[s] :: t in rank && rank[t] < rank[s]
  }

  /** How many things can be reached. */
  ghost function RankOf<T>(links: Links<T>, s: T): nat {
    |Reached(links, s)|
  }

  ghost function Reached<T>(links: Links<T>, s: T): set<T> {
    set t | t in links && Reaches(links, s, t)
  }

  ghost function RanksOf<T>(links: Links<T>): map<T, nat> {
    map s | s in links :: RankOf(links, s)
  }

  lemma {:induction false} SubsetSize<T>(a: set<T>, b: set<T>)
    requires a <= b
    ensures |a| <= |b|
  {
    if a != {} {
      var x :| x in a;
      SubsetSize(a - {x}, b - {x});
    }
  }

  lemma LinkedIsLower<T>(links: Links<T>, s: T, t: T)
    requires Closed(links) && Acyclic(links) && s in links && t in links[s]
    ensures RankOf(links, t) < RankOf(links, s)
  {
    assert Steps(0, links, s, t);
    forall u <- Reached(links, t)
      ensures u in Reached(links, s)
    {
      var k: nat :| Steps(k, links, t, u);
      assert Steps(k + 1, links, s, u);
    }
    assert t in Reached(links, s) && t !in Reached(links, t);
    SubsetSize(Reached(links, t), Reached(links, s) - {t});
  }

  lemma {:induction false} ReachedIsLower<T>(k: nat, links: Links<T>, rank: map<T, nat>, s: T, t: T)
    requires Ranks(links, rank) && Steps(k, links, s, t)
    ensures t in rank && rank[t] < rank[s]
  {
    if k > 0 {
      var u :| u in links[s] && Steps(k - 1, links, u, t);
      ReachedIsLower(k - 1, links, rank, u, t);
    }
  }

  /** There are ranks exactly when nothing reaches itself. */
  lemma AcyclicIffRanked<T>(links: Links<T>)
    requires Closed(links)
    ensures Acyclic(links) <==> Ranks(links, RanksOf(links))
    ensures Acyclic(links) <==> exists rank :: Ranks(links, rank)
  {
    if Acyclic(links) {
      forall s <- links, t <- links[s]
        ensures RankOf(links, t) < RankOf(links, s)
      {
        LinkedIsLower(links, s, t);
      }
      assert Ranks(links, RanksOf(links));
    }
    forall rank, s, k: nat | Ranks(links, rank) && s in links
      ensures !Steps(k, links, s, s)
    {
      if Steps(k, links, s, s) {
        ReachedIsLower(k, links, rank, s, s);
      }
    }
  }
}

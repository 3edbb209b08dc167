/** The ordering behind `getLeaderboard`: a copy of the players sorted by score,
    highest first, with `Array.prototype.sort` (stable), so that players with equal
    scores keep the order in which the room's map yields them. */
module Ranking {
  import opened Types
  import opened Collections

  ghost predicate SortedByScore(l: seq<Player>) {
    forall i, j :: 0 <= i < j < |l| ==> l[i].score >= l[j].score
  }

  /** The players of `l` whose score is `s`, in the order of `l`. */
  function WithScore(l: seq<Player>, s: int): seq<Player> {
    if l == [] then [] else (if l[0].score == s then [l[0]] else []) + WithScore(l[1..], s)
  }

  /** Places `p` in front of the first player who does not score more than it. */
  function Insert(p: Player, l: seq<Player>): (r: seq<Player>)
    ensures multiset(r) == multiset(l) + multiset{p}
  {
    if l == [] || l[0].score <= p.score then [p] + l
    else
      assert l == [l[0]] + l[1..];
      [l[0]] + Insert(p, l[1..])
  }

  lemma {:induction false} InsertSorted(p: Player, l: seq<Player>)
    requires SortedByScore(l)
    ensures SortedByScore(Insert(p, l))
  {
    if l != [] && l[0].score > p.score {
      var rest := Insert(p, l[1..]);
      InsertSorted(p, l[1..]);
      forall x | x in rest ensures x.score <= l[0].score {
        assert x in multiset(rest);
        assert x == p || x in l[1..];
      }
    }
  }

  /** Inserting `p` adds it in front of the players of its own score. */
  lemma {:induction false} InsertWithScore(p: Player, l: seq<Player>, s: int)
    ensures WithScore(Insert(p, l), s) == (if p.score == s then [p] else []) + WithScore(l, s)
  {
    if l == [] || l[0].score <= p.score {
      assert ([p] + l)[1..] == l;
    } else {
      var rest := Insert(p, l[1..]);
      InsertWithScore(p, l[1..], s);
      assert ([l[0]] + rest)[1..] == rest;
    }
  }

  /** The players sorted by descending score, stably. */
  function SortByScore(ps: seq<Player>): (r: seq<Player>)
    ensures multiset(r) == multiset(ps)
    ensures SortedByScore(r)
    ensures forall s :: WithScore(r, s) == WithScore(ps, s)
  {
    if ps == [] then [] else
      var rest := SortByScore(ps[1..]);
      assert ps == [ps[0]] + ps[1..];
      InsertSorted(ps[0], rest);
      assert forall s :: WithScore(Insert(ps[0], rest), s) == WithScore(ps, s) by {
        forall s ensures WithScore(Insert(ps[0], rest), s) == WithScore(ps, s) {
          InsertWithScore(ps[0], rest, s);
        }
      }
      Insert(ps[0], rest)
  }

  function EntryOf(p: Player, rank: int): LeaderboardEntry {
    LeaderboardEntry(rank, p.id, p.username, p.score, p.lastQuestionScore)
  }

  /** The leaderboard rows of an already ranked list: position i gets rank i + 1. */
  function Entries(ranked: seq<Player>): (r: seq<LeaderboardEntry>)
    ensures |r| == |ranked|
    ensures forall i :: 0 <= i < |r| ==> r[i] == EntryOf(ranked[i], i + 1)
  {
    seq(|ranked|, i requires 0 <= i < |ranked| => EntryOf(ranked[i], i + 1))
  }

  /** A descending order that keeps equal scores in input order is unique: any
      stable sort of the same players by descending score gives `SortByScore`'s
      result. */
  lemma {:induction false} StableSortUnique(a: seq<Player>, b: seq<Player>)
    requires SortedByScore(a) && SortedByScore(b)
    requires forall s :: WithScore(a, s) == WithScore(b, s)
    ensures a == b
  {
    if a != [] && b != [] {
      assert a == [a[0]] + a[1..];
      assert b == [b[0]] + b[1..];
      // both heads carry the top score
      WithScoreHead(a);
      WithScoreHead(b);
      assert a[0].score == b[0].score by {
        if a[0].score > b[0].score {
          WithScoreMember(b, a[0].score);
          assert false;
        } else if a[0].score < b[0].score {
          WithScoreMember(a, b[0].score);
          assert false;
        }
      }
      var s0 := a[0].score;
      assert a[0] == b[0] by {
        assert WithScore(a, s0)[0] == a[0];
        assert WithScore(b, s0)[0] == b[0];
      }
      forall s ensures WithScore(a[1..], s) == WithScore(b[1..], s) {
        var h := if s == s0 then [a[0]] else [];
        assert WithScore(a, s) == h + WithScore(a[1..], s);
        assert WithScore(b, s) == h + WithScore(b[1..], s);
        AppendCancel(h, WithScore(a[1..], s), WithScore(b[1..], s));
      }
      StableSortUnique(a[1..], b[1..]);
    } else if a != [] {
      WithScoreHead(a);
      assert false;
    } else if b != [] {
      WithScoreHead(b);
      assert false;
    }
  }

  /** The first player of a list is the first of its score. */
  lemma WithScoreHead(l: seq<Player>)
    requires l != []
    ensures WithScore(l, l[0].score) != [] && WithScore(l, l[0].score)[0] == l[0]
  {
  }

  /** In a list sorted by descending score nobody scores more than the head. */
  lemma {:induction false} WithScoreMember(l: seq<Player>, s: int)
    requires l != [] && SortedByScore(l) && s > l[0].score
    ensures WithScore(l, s) == []
  {
    if |l| > 1 {
      WithScoreMember(l[1..], s);
    } else {
      assert l[1..] == [];
    }
  }

}

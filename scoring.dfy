/**
 * Relevance scoring: a bookmark's score for a query is the sum of the stored
 * frequencies of the query terms plus a one-time bonus for each field
 * (title 10, tags 8, description 5, notes 3) whose lower-cased text contains
 * a query term that is also one of the bookmark's own terms.
 */
module Scoring {
  import opened Types
  import opened Tokenizer
  import opened Postings

  /** `s.includes(sub)`: `sub` is a prefix of `s` or occurs in the rest of `s`. */
  predicate Contains(s: string, sub: string) {
    |sub| <= |s| && (s[..|sub|] == sub || Contains(s[1..], sub))
  }

  /** `tags.some(tag => tag.toLowerCase().includes(term))`. */
  predicate SomeTagContains(tags: seq<string>, term: string) {
    |tags| > 0 && (Contains(LowerCase(tags[0]), term) || SomeTagContains(tags[1..], term))
  }

  /**
   * `toLowerCase` on the ASCII letters: no upper-case letter is left, each
   * upper-case letter becomes the same letter in lower case, and every other
   * character is kept.
   */
  function LowerCase(s: string): (r: string)
    ensures |r| == |s|
    ensures forall i :: 0 <= i < |r| ==> !('A' <= r[i] <= 'Z')
    ensures forall i :: 0 <= i < |s| && 'A' <= s[i] <= 'Z' ==> r[i] as int - s[i] as int == 'a' as int - 'A' as int
    ensures forall i :: 0 <= i < |s| && !('A' <= s[i] <= 'Z') ==> r[i] == s[i]
  {
    seq(|s|, i requires 0 <= i < |s| => ToLower(s[i]))
  }

  /** Lower-casing twice is lower-casing once: a lower-cased field is left as it is. */
  lemma LowerCaseIdempotent(s: string)
    ensures LowerCase(LowerCase(s)) == LowerCase(s)
  {
    var r := LowerCase(s);
    assert forall i :: 0 <= i < |r| ==> LowerCase(r)[i] == r[i];
  }

  /** The field test of the score: does the lower-cased field contain `term`? */
  predicate FieldMatches(b: Bookmark, f: Field, term: string) {
    match f
    case Title => Contains(LowerCase(b.title), term)
    case Tags => SomeTagContains(b.tags, term)
    case Description => b.description.Some? && Contains(LowerCase(b.description.value), term)
    case Notes => b.notes.Some? && Contains(LowerCase(b.notes.value), term)
  }

  /** The running state of a score computation: the score so far and the fields already rewarded. */
  datatype Tally = Tally(score: int, matched: seq<Field>)

  /** One field check: a matching field not yet rewarded earns its weight and is recorded. */
  function Reward(acc: Tally, f: Field, hit: bool): Tally {
    if hit && f !in acc.matched then Tally(acc.score + f.Weight(), acc.matched + [f]) else acc
  }

  /** The four field checks for one term, in the order title, tags, description, notes. */
  function RewardFields(b: Bookmark, term: string, acc: Tally): Tally {
    var a1 := Reward(acc, Title, FieldMatches(b, Title, term));
    var a2 := Reward(a1, Tags, FieldMatches(b, Tags, term));
    var a3 := Reward(a2, Description, FieldMatches(b, Description, term));
    Reward(a3, Notes, FieldMatches(b, Notes, term))
  }

  /**
   * One query term: a term with a posting list adds the stored frequency, and
   * when it is also one of the bookmark's terms (`bterms`) the field checks run.
   */
  function ScoreTerm(index: Index, id: string, b: Bookmark, bterms: seq<string>, acc: Tally, term: string): Tally {
    if term !in index then acc
    else
      var acc' := Tally(acc.score + Freq(index, term, id), acc.matched);
      if term in bterms then RewardFields(b, term, acc') else acc'
  }

  /** The query terms taken in order, starting from score 0 and the given matched fields. */
  function Score(index: Index, id: string, b: Bookmark, bterms: seq<string>, qs: seq<string>, matched: seq<Field>): Tally
  {
    if |qs| == 0 then Tally(0, matched)
    else ScoreTerm(index, id, b, bterms, Score(index, id, b, bterms, qs[..|qs| - 1], matched), qs[|qs| - 1])
  }

  /** Scoring one more query term continues from the score of the shorter prefix. */
  lemma ScoreStep(index: Index, id: string, b: Bookmark, bterms: seq<string>, qs: seq<string>, k: nat, matched: seq<Field>)
    requires k < |qs|
    ensures Score(index, id, b, bterms, qs[..k + 1], matched)
      == ScoreTerm(index, id, b, bterms, Score(index, id, b, bterms, qs[..k], matched), qs[k])
  {
    assert qs[..k + 1][..k] == qs[..k];
  }

  /** The term-frequency part of the score: the stored frequency of each query term, repeats included. */
  function BaseScore(index: Index, id: string, qs: seq<string>): int {
    if |qs| == 0 then 0 else BaseScore(index, id, qs[..|qs| - 1]) + Freq(index, qs[|qs| - 1], id)
  }

  /** The term-frequency part computed from the bookmark's own terms instead of the index. */
  function ContentScore(bterms: seq<string>, qs: seq<string>): nat {
    if |qs| == 0 then 0 else ContentScore(bterms, qs[..|qs| - 1]) + multiset(bterms)[qs[|qs| - 1]]
  }

  const AllFields: set<Field> := {Title, Tags, Description, Notes}

  /** The fields some query term earns: a posted term that is a bookmark term and that the field contains. */
  ghost function Fired(index: Index, b: Bookmark, bterms: seq<string>, qs: seq<string>): set<Field> {
    set f | f in AllFields && exists t :: t in qs && t in index && t in bterms && FieldMatches(b, f, t)
  }

  /** The fields some query term earns, read from the bookmark's own terms instead of the index. */
  ghost function ContentFired(b: Bookmark, bterms: seq<string>, qs: seq<string>): set<Field> {
    set f | f in AllFields && exists t :: t in qs && t in bterms && FieldMatches(b, f, t)
  }

  /** The total bonus of a set of fields. */
  function Bonus(fs: set<Field>): (r: nat)
    ensures r <= Title.Weight() + Tags.Weight() + Description.Weight() + Notes.Weight()
  {
    (if Title in fs then Title.Weight() else 0) + (if Tags in fs then Tags.Weight() else 0)
    + (if Description in fs then Description.Weight() else 0) + (if Notes in fs then Notes.Weight() else 0)
  }

  /** No field is recorded twice. */
  predicate NoDup(fs: seq<Field>) {
    forall i, j :: 0 <= i < j < |fs| ==> fs[i] != fs[j]
  }

  /**
   * Starting from no matched fields, as `search` does: the matched fields are
   * the fired fields, each recorded once, and the score is the term-frequency
   * part plus their bonus.
   */
  lemma {:induction false} ScoreFromScratch(index: Index, id: string, b: Bookmark, bterms: seq<string>, qs: seq<string>)
    ensures var r := Score(index, id, b, bterms, qs, []);
      && NoDup(r.matched)
      && (forall f :: f in r.matched <==> f in Fired(index, b, bterms, qs))
      && r.score == BaseScore(index, id, qs) + SeqBonus(r.matched)
    decreases |qs|
  {
    if |qs| > 0 {
      var qs0 := qs[..|qs| - 1];
      var t := qs[|qs| - 1];
      ScoreFromScratch(index, id, b, bterms, qs0);
      var r0 := Score(index, id, b, bterms, qs0, []);
      FiredStep(index, b, bterms, qs);
      ScoreTermShape(index, id, b, bterms, r0, t);
    }
  }

  /** One query term adds its stored frequency and records, once each, the fields it fires. */
  lemma ScoreTermShape(index: Index, id: string, b: Bookmark, bterms: seq<string>, acc: Tally, t: string)
    ensures var r := ScoreTerm(index, id, b, bterms, acc, t);
      && (NoDup(acc.matched) ==> NoDup(r.matched))
      && (forall f :: f in r.matched <==> f in acc.matched || (t in index && t in bterms && FieldMatches(b, f, t)))
      && r.score - SeqBonus(r.matched) == acc.score + Freq(index, t, id) - SeqBonus(acc.matched)
  {
    if t in index {
      var acc' := Tally(acc.score + Freq(index, t, id), acc.matched);
      if t in bterms {
        RewardFieldsShape(b, t, acc');
      }
    }
  }

  /**
   * The bounds that follow: the score is the term-frequency part plus the
   * bonus of the fired fields, which is at most 26.
   */
  lemma ScoreBounds(index: Index, id: string, b: Bookmark, bterms: seq<string>, qs: seq<string>)
    ensures var r := Score(index, id, b, bterms, qs, []);
      && r.score == BaseScore(index, id, qs) + Bonus(Fired(index, b, bterms, qs))
      && BaseScore(index, id, qs) <= r.score <= BaseScore(index, id, qs) + 26
  {
    ScoreFromScratch(index, id, b, bterms, qs);
  }

  /** The fired fields grow by the matching fields of the last term when it is posted and a bookmark term. */
  lemma FiredStep(index: Index, b: Bookmark, bterms: seq<string>, qs: seq<string>)
    requires |qs| > 0
    ensures var t := qs[|qs| - 1];
      forall f :: f in Fired(index, b, bterms, qs) <==>
        f in Fired(index, b, bterms, qs[..|qs| - 1]) || (t in index && t in bterms && FieldMatches(b, f, t))
  {
    var qs0 := qs[..|qs| - 1];
    assert qs == qs0 + [qs[|qs| - 1]];
    forall f
      ensures f in Fired(index, b, bterms, qs) ==> f in Fired(index, b, bterms, qs0) || (qs[|qs| - 1] in index && qs[|qs| - 1] in bterms && FieldMatches(b, f, qs[|qs| - 1]))
    {
      if f in Fired(index, b, bterms, qs) {
        var t :| t in qs && t in index && t in bterms && FieldMatches(b, f, t);
        if t != qs[|qs| - 1] {
          assert t in qs0;
        }
      }
    }
  }

  /** The bonus of the fields a sequence holds, whatever their order. */
  function SeqBonus(fs: seq<Field>): nat {
    Bonus(set f | f in fs)
  }

  /**
   * The field checks for one term record, once each, the matching fields not
   * yet recorded, and add exactly their bonus.
   */
  lemma RewardFieldsShape(b: Bookmark, term: string, acc: Tally)
    ensures var r := RewardFields(b, term, acc);
      && (NoDup(acc.matched) ==> NoDup(r.matched))
      && (forall f :: f in r.matched <==> f in acc.matched || FieldMatches(b, f, term))
      && r.score - SeqBonus(r.matched) == acc.score - SeqBonus(acc.matched)
  {
    var a1 := Reward(acc, Title, FieldMatches(b, Title, term));
    RewardShape(acc, Title, FieldMatches(b, Title, term));
    var a2 := Reward(a1, Tags, FieldMatches(b, Tags, term));
    RewardShape(a1, Tags, FieldMatches(b, Tags, term));
    var a3 := Reward(a2, Description, FieldMatches(b, Description, term));
    RewardShape(a2, Description, FieldMatches(b, Description, term));
    RewardShape(a3, Notes, FieldMatches(b, Notes, term));
  }

  /** One field check keeps the recorded fields as a prefix and adds the bonus of what it appends. */
  lemma RewardShape(acc: Tally, f: Field, hit: bool)
    ensures var r := Reward(acc, f, hit);
      && acc.matched <= r.matched
      && (NoDup(acc.matched) ==> NoDup(r.matched))
      && (forall g :: g in r.matched <==> g in acc.matched || (g == f && hit))
      && r.score - SeqBonus(r.matched) == acc.score - SeqBonus(acc.matched)
  {
    if hit && f !in acc.matched {
      var m := acc.matched + [f];
      assert forall g :: g in m <==> g in acc.matched || g == f;
    }
  }

  /** A well-formed index stores positive frequencies, so the term-frequency part is not negative. */
  lemma {:induction false} BaseScoreNonNegative(index: Index, id: string, qs: seq<string>)
    requires WellFormed(index)
    ensures BaseScore(index, id, qs) >= 0
  {
    if |qs| > 0 {
      BaseScoreNonNegative(index, id, qs[..|qs| - 1]);
      var t := qs[|qs| - 1];
      if Posted(index, t, id) {
        assert index[t].bookmarks[id] > 0;
      }
    }
  }

  /**
   * Under the index invariant the stored frequencies are the occurrence
   * counts in the bookmark's terms, and a term of the bookmark always has a
   * posting list, so the index drops out of the score.
   */
  lemma {:induction false} ScoreFromContent(index: Index, docs: Docs, id: string, b: Bookmark, qs: seq<string>)
    requires Valid(index, docs) && id in docs
    ensures BaseScore(index, id, qs) == ContentScore(docs[id], qs)
    ensures Fired(index, b, docs[id], qs) == ContentFired(b, docs[id], qs)
  {
    if |qs| > 0 {
      ScoreFromContent(index, docs, id, b, qs[..|qs| - 1]);
      assert Freq(index, qs[|qs| - 1], id) == Occ(docs, qs[|qs| - 1], id);
    }
    forall f, t | t in qs && t in docs[id] && FieldMatches(b, f, t)
      ensures t in index
    {
      ValidPosted(index, docs, t, id);
    }
  }

  /**
   * A one-term query whose term has a posting list and is one of the
   * bookmark's terms scores the stored frequency plus the weights of the
   * fields that contain the term.
   */
  lemma SingleTermScore(index: Index, id: string, b: Bookmark, bterms: seq<string>, t: string)
    requires t in index && t in bterms
    ensures Score(index, id, b, bterms, [t], []).score
      == Freq(index, t, id) + Bonus(set f | f in AllFields && FieldMatches(b, f, t))
  {
    ScoreBounds(index, id, b, bterms, [t]);
    assert [t][..0] == [];
    assert Fired(index, b, bterms, [t]) == set f | f in AllFields && FieldMatches(b, f, t) by {
      forall f | f in AllFields && FieldMatches(b, f, t)
        ensures f in Fired(index, b, bterms, [t])
      {
        assert t in [t];
      }
    }
  }

  /**
   * With equal stored frequencies, a bookmark whose title alone contains the
   * term scores 5 more than one whose description alone contains it.
   */
  lemma TitleOutscoresDescription(index: Index, idA: string, a: Bookmark, aterms: seq<string>,
                                  idB: string, b: Bookmark, bterms: seq<string>, t: string)
    requires t in index && t in aterms && t in bterms && Freq(index, t, idA) == Freq(index, t, idB)
    requires forall f :: FieldMatches(a, f, t) <==> f == Title
    requires forall f :: FieldMatches(b, f, t) <==> f == Description
    ensures Score(index, idA, a, aterms, [t], []).score == Score(index, idB, b, bterms, [t], []).score + 5
  {
    SingleTermScore(index, idA, a, aterms, t);
    SingleTermScore(index, idB, b, bterms, t);
    assert (set f | f in AllFields && FieldMatches(a, f, t)) == {Title};
    assert (set f | f in AllFields && FieldMatches(b, f, t)) == {Description};
  }
}

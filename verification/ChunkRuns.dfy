/** Where a long block is cut when no sentence is too long by itself: between sentences, as late as possible. */
module ChunkRuns {
  import opened Text
  import opened LongSegments

  // ---- Sentences ----

  /** A sentence ends with its only terminator, except that the last one may end without. */
  ghost predicate Sentence(s: string, last: bool) {
    s != "" && (forall i :: 0 <= i < |s| - 1 ==> !Terminates(s[i])) && (last || Terminates(s[|s| - 1]))
  }

  lemma {:induction false} FirstSentenceIs(value: string)
    requires value != ""
    ensures var i := SentenceEnd(value); Sentence(value[..i], i == |value|)
    decreases |value|
  {
    if Terminates(value[0]) || |value| == 1 {
    } else {
      FirstSentenceIs(value[1..]);
      var i := SentenceEnd(value[1..]);
      var s, t := value[..i + 1], value[1..][..i];
      assert forall k :: 1 <= k < |s| ==> s[k] == t[k - 1];
    }
  }

  /** The sentences of a text, in order and together the whole text. */
  lemma {:induction false} SentencesAre(value: string)
    ensures Flatten(Sentences(value)) == value
    ensures forall k :: 0 <= k < |Sentences(value)| ==> Sentence(Sentences(value)[k], k == |Sentences(value)| - 1)
    decreases |value|
  {
    if value == "" {
    } else {
      var i := SentenceEnd(value);
      var all, rest := Sentences(value), Sentences(value[i..]);
      FirstSentenceIs(value);
      SentencesAre(value[i..]);
      assert value == value[..i] + value[i..] && all[1..] == rest;
      forall k | 0 <= k < |all|
        ensures Sentence(all[k], k == |all| - 1)
      {
        if k > 0 {
          assert all[k] == rest[k - 1];
        }
      }
    }
  }

  // ---- Groups of whole sentences ----

  function Concat(groups: seq<seq<string>>): seq<string>
    decreases |groups|
  {
    if groups == [] then [] else Concat(groups[..|groups| - 1]) + groups[|groups| - 1]
  }

  function Trims(groups: seq<seq<string>>): seq<string> {
    seq(|groups|, i requires 0 <= i < |groups| => Trim(Flatten(groups[i])))
  }

  ghost predicate AllFit(groups: seq<seq<string>>, maximum: nat) {
    forall i :: 0 <= i < |groups| ==> groups[i] != [] && |Flatten(groups[i])| <= maximum
  }

  /** No group could have taken in the first sentence of the next one. */
  ghost predicate Full(groups: seq<seq<string>>, maximum: nat)
    requires AllFit(groups, maximum)
  {
    forall i :: 0 <= i < |groups| - 1 ==> |Flatten(groups[i])| + |groups[i + 1][0]| > maximum
  }

  ghost predicate Grouped(p: Progress, groups: seq<seq<string>>, maximum: nat) {
    && groups != [] && AllFit(groups, maximum) && Full(groups, maximum)
    && p.output == Trims(groups[..|groups| - 1]) && p.current == Flatten(groups[|groups| - 1])
  }

  lemma FlattenOne(s: string)
    ensures Flatten([s]) == s
  {
    assert [s][1..] == [] && s + "" == s;
  }

  /** The sentence opens a new group. */
  lemma OpensGroup(p: Progress, groups: seq<seq<string>>, sentence: string, maximum: nat)
    requires Grouped(p, groups, maximum) && p.current != "" && |sentence| <= maximum && |p.current| + |sentence| > maximum
    ensures Grouped(PushSentence(p, sentence, maximum), groups + [[sentence]], maximum)
    ensures Concat(groups + [[sentence]]) == Concat(groups) + [sentence]
  {
    var more, n := groups + [[sentence]], |groups|;
    FlattenOne(sentence);
    assert more[..n] == groups && "" + sentence == sentence;
    assert Trims(groups) == Trims(groups[..n - 1]) + [Trim(Flatten(groups[n - 1]))];
    assert forall i :: 0 <= i < n ==> more[i] == groups[i];
  }

  /** The sentence joins the last group. */
  lemma JoinsGroup(p: Progress, groups: seq<seq<string>>, sentence: string, maximum: nat)
    requires Grouped(p, groups, maximum) && |p.current| + |sentence| <= maximum
    ensures var longer := groups[..|groups| - 1] + [groups[|groups| - 1] + [sentence]];
      Grouped(PushSentence(p, sentence, maximum), longer, maximum) && Concat(longer) == Concat(groups) + [sentence]
  {
    var n := |groups|;
    var front, last := groups[..n - 1], groups[n - 1];
    var longer := front + [last + [sentence]];
    FlattenAppend(last, sentence);
    assert longer[..n - 1] == front;
    assert forall i :: 0 <= i < n - 1 ==> longer[i] == groups[i];
    assert longer[n - 1][0] == groups[n - 1][0];
    Associative(Concat(front), last, [sentence]);
  }

  ghost predicate AllShort(sentences: seq<string>, maximum: nat) {
    forall s :: s in sentences ==> 1 <= |s| <= maximum
  }

  lemma {:induction false} GroupsGrow(p: Progress, groups: seq<seq<string>>, rest: seq<string>, maximum: nat)
    returns (all: seq<seq<string>>)
    requires Grouped(p, groups, maximum) && p.current != "" && AllShort(rest, maximum)
    ensures Grouped(PushSentences(p, rest, maximum), all, maximum) && Concat(all) == Concat(groups) + rest
    decreases |rest|
  {
    if rest == [] {
      all := groups;
    } else {
      var s := rest[0];
      assert s in rest && rest == [s] + rest[1..];
      var next;
      if |p.current| + |s| > maximum {
        OpensGroup(p, groups, s, maximum);
        next := groups + [[s]];
      } else {
        JoinsGroup(p, groups, s, maximum);
        next := groups[..|groups| - 1] + [groups[|groups| - 1] + [s]];
      }
      all := GroupsGrow(PushSentence(p, s, maximum), next, rest[1..], maximum);
      Associative(Concat(groups), [s], rest[1..]);
    }
  }

  function Unless(s: string): seq<string> {
    if s == "" then [] else [s]
  }

  /**
  A block that is too long, with no sentence too long by itself, is cut between sentences only, each chunk takes in as
  many as fit, and each is one group of sentences, trimmed; a blank last one is left out.
  */
  lemma ChunksAreRuns(value: string, maximum: nat) returns (groups: seq<seq<string>>)
    requires |value| > maximum && AllShort(Sentences(value), maximum)
    ensures groups != [] && AllFit(groups, maximum) && Full(groups, maximum) && Concat(groups) == Sentences(value)
    ensures Chunks(value, maximum) == Trims(groups[..|groups| - 1]) + Unless(Trim(Flatten(groups[|groups| - 1])))
  {
    var sentences := Sentences(value);
    var first := sentences[0];
    assert first in sentences && sentences == [first] + sentences[1..];
    FlattenOne(first);
    var p := Progress([], first);
    assert "" + first == first && PushSentence(Progress([], ""), first, maximum) == p;
    assert [[first]][..0] == [] && Trims([]) == [];
    assert Concat([[first]]) == [] + [first] == [first];
    groups := GroupsGrow(p, [[first]], sentences[1..], maximum);
  }
}

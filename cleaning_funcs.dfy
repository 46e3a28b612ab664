/** Text-preparation helpers for summarisation training data: broadcasting
    a document id over its sentences, labelling summary membership,
    telling sentences from single words, and stripping a stray leading
    newline. */
module CleaningFuncs {
  import opened PyStrings

  /** A document group: an id (any token) and its sentences, in order. */
  datatype Group<Id> = Group(id: Id, sentences: seq<string>)

  /** The pairs one group contributes: its id with each of its sentences,
      in order. */
  function Broadcast<Id>(id: Id, sentences: seq<string>): seq<(Id, string)>
  {
    seq(|sentences|, j requires 0 <= j < |sentences| => (id, sentences[j]))
  }

  /** Broadcasting over two runs of sentences, one after the other, gives
      the two runs' pairs one after the other: the inner loop may append
      sentence by sentence. */
  lemma BroadcastAppend<Id>(id: Id, s: seq<string>, t: seq<string>)
    ensures Broadcast(id, s + t) == Broadcast(id, s) + Broadcast(id, t)
  {
  }

  /** Every group's pairs, concatenated in group order. */
  function Flatten<Id>(groups: seq<Group<Id>>): seq<(Id, string)>
  {
    if groups == [] then []
    else Broadcast(groups[0].id, groups[0].sentences) + Flatten(groups[1..])
  }

  /** The number of sentences over all groups. */
  function TotalSentences<Id>(groups: seq<Group<Id>>): nat
  {
    if groups == [] then 0
    else |groups[0].sentences| + TotalSentences(groups[1..])
  }

  /** Flattening distributes over concatenation of group lists. */
  lemma {:induction false} FlattenAppend<Id>(a: seq<Group<Id>>, b: seq<Group<Id>>)
    ensures Flatten(a + b) == Flatten(a) + Flatten(b)
  {
    if a == [] {
      assert a + b == b;
    } else {
      var head := Broadcast(a[0].id, a[0].sentences);
      assert (a + b)[0] == a[0] && (a + b)[1..] == a[1..] + b;
      calc {
        Flatten(a + b);
        head + Flatten(a[1..] + b);
        { FlattenAppend(a[1..], b); }
        head + (Flatten(a[1..]) + Flatten(b));
        (head + Flatten(a[1..])) + Flatten(b);
      }
    }
  }

  /** The flattened list holds exactly one pair per sentence. */
  lemma {:induction false} FlattenLength<Id>(groups: seq<Group<Id>>)
    ensures |Flatten(groups)| == TotalSentences(groups)
  {
    if groups != [] {
      FlattenLength(groups[1..]);
    }
  }

  /** Sentence `j` of group `i` lands at position "sentences in the groups
      before `i`" plus `j`, paired with group `i`'s id; with FlattenLength
      this fixes every position of the output. */
  lemma FlattenAt<Id>(groups: seq<Group<Id>>, i: nat, j: nat)
    requires i < |groups| && j < |groups[i].sentences|
    ensures TotalSentences(groups[..i]) + j < |Flatten(groups)|
    ensures Flatten(groups)[TotalSentences(groups[..i]) + j] == (groups[i].id, groups[i].sentences[j])
  {
    var before, after := groups[..i], groups[i + 1..];
    assert groups == before + ([groups[i]] + after);
    FlattenAppend(before, [groups[i]] + after);
    FlattenLength(before);
    assert Flatten([groups[i]] + after) == Broadcast(groups[i].id, groups[i].sentences) + Flatten(after);
  }

  /** A group with no sentences contributes nothing, wherever it stands. */
  lemma FlattenSkipsEmptyGroup<Id>(a: seq<Group<Id>>, id: Id, b: seq<Group<Id>>)
    ensures Flatten(a + [Group(id, [])] + b) == Flatten(a + b)
  {
    FlattenAppend(a, [Group(id, [])] + b);
    assert a + [Group(id, [])] + b == a + ([Group(id, [])] + b);
    assert Flatten([Group(id, [])] + b) == Flatten(b);
    FlattenAppend(a, b);
  }

  /** `tup_list_maker`: grows the result one pair at a time, group by group
      and sentence by sentence. */
  method TupListMaker<Id>(tupList: seq<Group<Id>>) returns (finalList: seq<(Id, string)>)
    ensures finalList == Flatten(tupList)
    ensures |finalList| == TotalSentences(tupList)
  {
    finalList := [];
    for i := 0 to |tupList|
      invariant finalList == Flatten(tupList[..i])
    {
      var index := tupList[i].id;
      var sentences := tupList[i].sentences;
      for j := 0 to |sentences|
        invariant finalList == Flatten(tupList[..i]) + Broadcast(index, sentences[..j])
      {
        var pair := (index, sentences[j]);
        finalList := finalList + [pair];
        assert sentences[..j + 1] == sentences[..j] + [sentences[j]];
        BroadcastAppend(index, sentences[..j], [sentences[j]]);
      }
      assert sentences[..|sentences|] == sentences;
      assert tupList[..i + 1] == tupList[..i] + [tupList[i]];
      FlattenAppend(tupList[..i], [tupList[i]]);
    }
    assert tupList[..|tupList|] == tupList;
    FlattenLength(tupList);
  }

  /** `is_summary`: "yes" for a nonzero label, "no" for zero, nothing else. */
  function IsSummary(number: int): (r: string)
    ensures r == "yes" || r == "no"
    ensures r == "yes" <==> number != 0
    ensures r == "no" <==> number == 0
  {
    if number != 0 then "yes" else "no"
  }

  /** `is_sentence`: more than one space-separated part, which is the same
      as holding at least one space. */
  function IsSentence(sentence: string): (r: bool)
    ensures r <==> ' ' in sentence
  {
    SplitCount(sentence, ' ');
    |Split(sentence, ' ')| > 1
  }

  /** `clean_n_char`: inspects the first space-separated word and drops the
      first character of the sentence when that word starts with a newline.
      Since the first word is a prefix of the sentence, this only ever
      depends on the sentence's first character. */
  function CleanNChar(sentence: string): (r: string)
    ensures r == if |sentence| > 0 && sentence[0] == '\n' then sentence[1..] else sentence
    ensures |sentence| - 1 <= |r| <= |sentence| && r == sentence[|sentence| - |r|..]
  {
    var wordList := Split(sentence, ' ');
    var firstWord := wordList[0];
    SplitFirst(sentence, ' ');
    if SliceTo(firstWord, 1) == "\n" then SliceFrom(sentence, 1) else sentence
  }

  /** A worked pipeline, broadcast step: the empty second group adds nothing. */
  lemma PipelineExampleFlatten()
    ensures Flatten([Group("doc1", ["\nFirst sentence here", "word"]), Group("doc2", [])])
         == [("doc1", "\nFirst sentence here"), ("doc1", "word")]
  {
  }

  /** The same pipeline, classify step, with the boundary cases. */
  lemma PipelineExampleClassify()
    ensures IsSentence("\nFirst sentence here") && !IsSentence("word")
    ensures !IsSentence("") && IsSentence("a ")
  {
  }

  /** The same pipeline, clean step, with the boundary cases. */
  lemma PipelineExampleClean()
    ensures CleanNChar("\nFirst sentence here") == "First sentence here"
    ensures CleanNChar("\n\nx") == "\nx" && CleanNChar(" \nx") == " \nx" && CleanNChar("") == ""
  {
    var s := "\nFirst sentence here";
    assert s[0] == '\n' && s[1..] == "First sentence here";
    var t := "\n\nx";
    assert t[0] == '\n' && t[1..] == "\nx";
  }
}

/**
 * The two `filter` calls of the cleaner: `new_dataset` keeps the records whose
 * `response` holds no listed phrase, `removed_dataset` keeps those whose
 * `response` holds at least one.
 */
module Partition {
  import opened Text
  import opened Matcher

  /** One dataset row: the `response` column the filter inspects, and the other columns, carried unchanged. */
  datatype Record = Record(response: string, columns: map<string, string>)

  /** The records, in order, whose `response` is flagged (`flagged == true`) or not flagged (`flagged == false`). */
  function Select(dataset: seq<Record>, phrases: seq<string>, flagged: bool): (out: seq<Record>)
    ensures |out| <= |dataset|
    decreases |dataset|
  {
    if dataset == [] then []
    else
      var rest := Select(dataset[1..], phrases, flagged);
      if ContainsUnwantedWords(dataset[0].response, phrases) == flagged then [dataset[0]] + rest else rest
  }

  /** A record is selected exactly when it is in the input and its verdict is the one asked for. */
  lemma {:induction false} SelectMembers(dataset: seq<Record>, phrases: seq<string>, flagged: bool)
    ensures forall r ::
      r in Select(dataset, phrases, flagged) <==> r in dataset && ContainsUnwantedWords(r.response, phrases) == flagged
    decreases |dataset|
  {
    if dataset != [] {
      SelectMembers(dataset[1..], phrases, flagged);
      assert dataset == [dataset[0]] + dataset[1..];
    }
  }

  /** `dataset.filter(lambda x: not contains_unwanted_words(x['response'], unwanted_words))` */
  function NewDataset(dataset: seq<Record>, phrases: seq<string>): (kept: seq<Record>)
    ensures |kept| <= |dataset|
    ensures forall r :: r in kept <==> r in dataset && !ContainsUnwantedWords(r.response, phrases)
  {
    SelectMembers(dataset, phrases, false);
    Select(dataset, phrases, false)
  }

  /** `dataset.filter(lambda x: contains_unwanted_words(x['response'], unwanted_words))` */
  function RemovedDataset(dataset: seq<Record>, phrases: seq<string>): (removed: seq<Record>)
    ensures |removed| <= |dataset|
    ensures forall r :: r in removed <==> r in dataset && ContainsUnwantedWords(r.response, phrases)
  {
    SelectMembers(dataset, phrases, true);
    Select(dataset, phrases, true)
  }

  /**
   * Every occurrence of a record lands in exactly one output: the two outputs
   * together hold the input's records with their multiplicities, so nothing is
   * lost, duplicated or made up, and the sizes add up.
   */
  lemma {:induction false} PartitionConservesRecords(dataset: seq<Record>, phrases: seq<string>)
    ensures multiset(NewDataset(dataset, phrases)) + multiset(RemovedDataset(dataset, phrases)) == multiset(dataset)
    ensures |NewDataset(dataset, phrases)| + |RemovedDataset(dataset, phrases)| == |dataset|
    decreases |dataset|
  {
    if dataset != [] {
      PartitionConservesRecords(dataset[1..], phrases);
      assert dataset == [dataset[0]] + dataset[1..];
    }
  }

  /**
   * Each input record is in exactly one output, the kept ones hold no listed
   * phrase and the removed ones hold at least one.
   */
  lemma PartitionIsTotalAndDisjoint(dataset: seq<Record>, phrases: seq<string>)
    ensures forall r :: r in dataset ==> (r in NewDataset(dataset, phrases) <==> r !in RemovedDataset(dataset, phrases))
    ensures forall r :: r in NewDataset(dataset, phrases) ==>
      r in dataset && forall k :: 0 <= k < |phrases| ==> !PhraseIn(phrases[k], r.response)
    ensures forall r :: r in RemovedDataset(dataset, phrases) ==>
      r in dataset && exists k :: 0 <= k < |phrases| && PhraseIn(phrases[k], r.response)
  {
    SelectMembers(dataset, phrases, false);
    SelectMembers(dataset, phrases, true);
  }

  /** Filtering an output again with the same predicate changes nothing. */
  lemma {:induction false} SelectIdempotent(dataset: seq<Record>, phrases: seq<string>, flagged: bool)
    ensures Select(Select(dataset, phrases, flagged), phrases, flagged) == Select(dataset, phrases, flagged)
    ensures Select(Select(dataset, phrases, flagged), phrases, !flagged) == []
    decreases |dataset|
  {
    if dataset != [] {
      SelectIdempotent(dataset[1..], phrases, flagged);
      var rest := Select(dataset[1..], phrases, flagged);
      if ContainsUnwantedWords(dataset[0].response, phrases) == flagged {
        assert ([dataset[0]] + rest)[1..] == rest;
      }
    }
  }

  /** Cleaning the cleaned dataset again removes nothing and keeps everything. */
  lemma CleaningIsIdempotent(dataset: seq<Record>, phrases: seq<string>)
    ensures RemovedDataset(NewDataset(dataset, phrases), phrases) == []
    ensures NewDataset(NewDataset(dataset, phrases), phrases) == NewDataset(dataset, phrases)
  {
    SelectIdempotent(dataset, phrases, false);
  }

  /**
   * Filtering commutes with splitting the input into consecutive shards, so
   * the outputs keep the input order and each record is classified on its own.
   */
  lemma {:induction false} SelectAppend(a: seq<Record>, b: seq<Record>, phrases: seq<string>, flagged: bool)
    ensures Select(a + b, phrases, flagged) == Select(a, phrases, flagged) + Select(b, phrases, flagged)
    decreases |a|
  {
    if a == [] {
      assert a + b == b;
    } else {
      SelectAppend(a[1..], b, phrases, flagged);
      var ab := a + b;
      assert ab[0] == a[0];
      assert ab[1..] == a[1..] + b;

    }
  }

  /** A `DatasetDict`: named splits, each a dataset; `filter` runs on every split. */
  type DatasetDict = map<string, seq<Record>>

  /** `out` holds exactly the records of `src` whose verdict is `flagged`. */
  ghost predicate SelectedFrom(src: seq<Record>, out: seq<Record>, phrases: seq<string>, flagged: bool) {
    forall r :: r in out <==> r in src && ContainsUnwantedWords(r.response, phrases) == flagged
  }

  /** `DatasetDict.filter`: the same selection applied split by split. */
  function SelectSplits(dd: DatasetDict, phrases: seq<string>, flagged: bool): (out: DatasetDict)
    ensures out.Keys == dd.Keys
    ensures forall name :: name in dd ==> SelectedFrom(dd[name], out[name], phrases, flagged)
  {
    var out := map name | name in dd :: Select(dd[name], phrases, flagged);
    assert forall name :: name in dd ==> SelectedFrom(dd[name], out[name], phrases, flagged) by {
      forall name | name in dd ensures SelectedFrom(dd[name], out[name], phrases, flagged) {
        SelectMembers(dd[name], phrases, flagged);
      }
    }
    out
  }

  /** Both outputs have the input's splits, and within every split the records are conserved. */
  lemma SplitsConserveRecords(dd: DatasetDict, phrases: seq<string>)
    ensures SelectSplits(dd, phrases, false).Keys == dd.Keys == SelectSplits(dd, phrases, true).Keys
    ensures forall name :: name in dd ==>
      multiset(SelectSplits(dd, phrases, false)[name]) + multiset(SelectSplits(dd, phrases, true)[name])
        == multiset(dd[name])
  {
    forall name | name in dd
      ensures multiset(SelectSplits(dd, phrases, false)[name]) + multiset(SelectSplits(dd, phrases, true)[name])
        == multiset(dd[name])
    {
      PartitionConservesRecords(dd[name], phrases);
    }
  }

  /** Two rows, one refusal: the refusal is removed and the answer is kept. */
  lemma RefusalIsRemoved(phrases: seq<string>)
    requires phrases == ["I cannot fulfill your request", "as an AI language model"]
    ensures var dataset := [Record("I cannot fulfill your request", map[]), Record("The answer is 42.", map[])];
      && NewDataset(dataset, phrases) == [Record("The answer is 42.", map[])]
      && RemovedDataset(dataset, phrases) == [Record("I cannot fulfill your request", map[])]
  {
  }
}

/** The feature schema of `extract_linguistic_features` and `process_texts_linguistic` in
    src/feature_generation/linguistic_parsing.py.

    The tagger is not modelled: its output for a text is the input `Doc` (one lemma and one
    coarse tag, fine tag and dependency label per token, the number of sentences, and one
    label per named entity). The glossary of tag names is a parameter. */
module LinguisticParsing {
  import opened Wrappers

  /** One token of the tagged document: `lemma_`, and `pos`, `tag`, `dep` of `doc.to_json()`. */
  datatype Token = Token(lemmaForm: string, pos: string, tag: string, dep: string)

  /** What the code reads from the tagger's output for one text. */
  datatype Doc = Doc(tokens: seq<Token>, sentenceCount: nat, entityLabels: seq<string>)

  /** A feature value: the code stores counts as Python ints and ratios as floats. */
  datatype Feature = IntFeature(n: int) | RealFeature(x: real)

  type Features = map<string, Feature>

  // ---------------------------------------------------------------------------
  // The lists built from the tagger's output

  /** `[token.lemma_ for token in doc]` */
  function Lemmas(doc: Doc): (s: seq<string>)
    ensures |s| == |doc.tokens|
  {
    seq(|doc.tokens|, i requires 0 <= i < |doc.tokens| => doc.tokens[i].lemmaForm)
  }

  /** `[token['pos'] for token in tokens]` */
  function PosLabels(tokens: seq<Token>): (s: seq<string>)
    ensures |s| == |tokens|
  {
    if tokens == [] then [] else [tokens[0].pos] + PosLabels(tokens[1..])
  }

  /** `[token['tag'] for token in tokens]` */
  function TagLabels(tokens: seq<Token>): (s: seq<string>)
    ensures |s| == |tokens|
  {
    if tokens == [] then [] else [tokens[0].tag] + TagLabels(tokens[1..])
  }

  /** `[token['dep'] for token in tokens]` */
  function DepLabels(tokens: seq<Token>): (s: seq<string>)
    ensures |s| == |tokens|
  {
    if tokens == [] then [] else [tokens[0].dep] + DepLabels(tokens[1..])
  }

  /** Position `i` of each label list holds token `i`'s label. */
  lemma {:induction false} TokenLabelsAt(tokens: seq<Token>, i: nat)
    requires i < |tokens|
    ensures PosLabels(tokens)[i] == tokens[i].pos
    ensures TagLabels(tokens)[i] == tokens[i].tag
    ensures DepLabels(tokens)[i] == tokens[i].dep
  {
    if i > 0 {
      TokenLabelsAt(tokens[1..], i - 1);
    }
  }

  /** `tokens_pos + tokens_tag + tokens_dep + ner_labels`: three labels per token, then one per
      entity. */
  function AllLabels(doc: Doc): (s: seq<string>)
    ensures |s| == 3 * |doc.tokens| + |doc.entityLabels|
  {
    PosLabels(doc.tokens) + TagLabels(doc.tokens) + DepLabels(doc.tokens) + doc.entityLabels
  }

  /** `s.count(name)`: the number of positions holding `name`. It is zero exactly when
      `name` does not occur, never exceeds `|s|`, and equals the multiplicity of `name`
      in the multiset of `s`. */
  function Occurrences(s: seq<string>, name: string): (c: nat)
    ensures c <= |s|
    ensures c == 0 <==> name !in s
    ensures c == multiset(s)[name]
  {
    if s == [] then 0
    else
      assert s == [s[0]] + s[1..];
      (if s[0] == name then 1 else 0) + Occurrences(s[1..], name)
  }

  /** `len(set(s))`: at most `|s|`, and at least 1 for a non-empty `s`. */
  function DistinctCount(s: seq<string>): (c: nat)
    ensures c <= |s|
    ensures |s| > 0 ==> c >= 1
  {
    SetOfSeqSize(s);
    |set x | x in s|
  }

  lemma {:induction false} SetOfSeqSize(s: seq<string>)
    ensures |set x | x in s| <= |s|
    ensures |s| > 0 ==> |set x | x in s| >= 1
  {
    if s != [] {
      SetOfSeqSize(s[1..]);
      assert (set x | x in s) == {s[0]} + (set x | x in s[1..]);
    }
  }

  // ---------------------------------------------------------------------------
  // The feature map

  /** The six keys every feature map has besides the glossary ones. */
  const BaseKeys: set<string> :=
    {"text_length", "count_of_tokens", "count_unique_tokens", "ratio_unique_tokens",
     "count_sentences", "tokens_per_sentence"}

  function CountKey(name: string): string { "count_" + name }

  function RatioKey(name: string): string { "ratio_" + name }

  /** The keys the glossary loop writes. */
  function LabelKeys(glossary: seq<string>): set<string>
  {
    (set l | l in glossary :: CountKey(l)) + (set l | l in glossary :: RatioKey(l))
  }

  /** The dict literal: the base statistics, under exactly the six base keys. Both divisions
      need non-zero divisors. */
  function BaseFeatures(text: string, doc: Doc): (m: Features)
    requires |doc.tokens| > 0 && doc.sentenceCount > 0
    ensures m.Keys == BaseKeys
  {
    var count := |Lemmas(doc)|;
    var unique := DistinctCount(Lemmas(doc));
    map["text_length" := IntFeature(|text|),
        "count_of_tokens" := IntFeature(count),
        "count_unique_tokens" := IntFeature(unique),
        "ratio_unique_tokens" := RealFeature(unique as real / count as real),
        "count_sentences" := IntFeature(doc.sentenceCount),
        "tokens_per_sentence" := RealFeature(count as real / doc.sentenceCount as real)]
  }

  /** `m` after the glossary loop has run over `glossary`: for each label in turn, its count in
      `labels` under `count_<label>` and that count over `tokenCount` under `ratio_<label>`. The loop
      only writes entries, so every key of `m` is still there. */
  function WithLabelFeatures(m: Features, labels: seq<string>, tokenCount: nat, glossary: seq<string>): (r: Features)
    requires tokenCount > 0
    ensures m.Keys <= r.Keys
    decreases |glossary|
  {
    if glossary == [] then m
    else
      var name := glossary[|glossary| - 1];
      var c := Occurrences(labels, name);
      WithLabelFeatures(m, labels, tokenCount, glossary[..|glossary| - 1])
        [CountKey(name) := IntFeature(c)]
        [RatioKey(name) := RealFeature(c as real / tokenCount as real)]
  }

  /** What `extract_linguistic_features` returns for `text` when the tagger produced `doc`:
      ZeroDivisionError exactly when there is no token or no sentence (one of the two divisions
      of the dict literal fails), and otherwise the feature map. */
  function LinguisticFeatures(text: string, doc: Doc, glossary: seq<string>): (r: Result<Features>)
    ensures r.Err? <==> |doc.tokens| == 0 || doc.sentenceCount == 0
    ensures r.Err? ==> r.error == ZeroDivisionError
  {
    if |doc.tokens| == 0 || doc.sentenceCount == 0 then Err(ZeroDivisionError)
    else Ok(WithLabelFeatures(BaseFeatures(text, doc), AllLabels(doc), |doc.tokens|, glossary))
  }

  /** `extract_linguistic_features` after the tagger call: the base statistics, then a loop
      over the glossary that adds `count_<label>` and `ratio_<label>` to the dict. */
  method ExtractLinguisticFeatures(text: string, doc: Doc, glossary: seq<string>)
    returns (result: Result<Features>)
    ensures result == LinguisticFeatures(text, doc, glossary)
  {
    var tokens := Lemmas(doc);
    var textLength := |text|;
    var countOfTokens := |tokens|;
    var countUniqueTokens := DistinctCount(tokens);
    var countSentences := doc.sentenceCount;
    var allLabels := AllLabels(doc);
    if countOfTokens == 0 || countSentences == 0 {
      return Err(ZeroDivisionError);
    }
    var features := map["text_length" := IntFeature(textLength),
                        "count_of_tokens" := IntFeature(countOfTokens),
                        "count_unique_tokens" := IntFeature(countUniqueTokens),
                        "ratio_unique_tokens" := RealFeature(countUniqueTokens as real / countOfTokens as real),
                        "count_sentences" := IntFeature(countSentences),
                        "tokens_per_sentence" := RealFeature(countOfTokens as real / countSentences as real)];
    assert features == BaseFeatures(text, doc);
    var i := 0;
    while i < |glossary|
      invariant 0 <= i <= |glossary|
      invariant features == WithLabelFeatures(BaseFeatures(text, doc), allLabels, countOfTokens, glossary[..i])
    {
      var name := glossary[i];
      var labelCount := Occurrences(allLabels, name);
      LabelFeaturesStep(BaseFeatures(text, doc), allLabels, countOfTokens, glossary, i);
      features := features[CountKey(name) := IntFeature(labelCount)];
      features := features[RatioKey(name) := RealFeature(labelCount as real / countOfTokens as real)];
      i := i + 1;
    }
    assert glossary[..i] == glossary;
    return Ok(features);
  }

  /** One more round of the glossary loop. */
  lemma LabelFeaturesStep(m: Features, labels: seq<string>, tokenCount: nat, glossary: seq<string>, i: nat)
    requires tokenCount > 0 && i < |glossary|
    ensures WithLabelFeatures(m, labels, tokenCount, glossary[..i + 1])
         == WithLabelFeatures(m, labels, tokenCount, glossary[..i])
              [CountKey(glossary[i]) := IntFeature(Occurrences(labels, glossary[i]))]
              [RatioKey(glossary[i]) := RealFeature(Occurrences(labels, glossary[i]) as real / tokenCount as real)]
  {
    assert glossary[..i + 1][..i] == glossary[..i];
  }

  /** Applies `f` to every element in order and collects the results; the first element
      whose result is an error makes the whole result that error. */
  function MapAll<A, B>(xs: seq<A>, f: A -> Result<B>): (r: Result<seq<B>>)
    ensures r.Ok? <==> forall i :: 0 <= i < |xs| ==> f(xs[i]).Ok?
    ensures r.Ok? ==> |r.value| == |xs| && forall i :: 0 <= i < |xs| ==> r.value[i] == f(xs[i]).value
    ensures r.Err? ==> exists i :: 0 <= i < |xs| && f(xs[i]) == Err(r.error) &&
                                   forall j :: 0 <= j < i ==> f(xs[j]).Ok?
  {
    if xs == [] then Ok([])
    else if f(xs[0]).Err? then Err(f(xs[0]).error)
    else
      var rest := MapAll(xs[1..], f);
      assert forall i :: 1 <= i < |xs| ==> xs[i] == xs[1..][i - 1];
      if rest.Err? then
        var i :| 0 <= i < |xs[1..]| && f(xs[1..][i]) == Err(rest.error) &&
                 forall j :: 0 <= j < i ==> f(xs[1..][j]).Ok?;
        assert f(xs[i + 1]) == Err(rest.error);
        rest
      else
        Ok([f(xs[0]).value] + rest.value)
  }

  /** `process_texts_linguistic`: one feature map per text, in input order, with the tagger
      `nlp` applied to each text; the first text that raises makes the whole call raise. */
  function ProcessTexts(texts: seq<string>, nlp: string -> Doc, glossary: seq<string>): (r: Result<seq<Features>>)
    ensures r.Ok? <==> forall i :: 0 <= i < |texts| ==> LinguisticFeatures(texts[i], nlp(texts[i]), glossary).Ok?
    ensures r.Ok? ==> |r.value| == |texts|
    ensures r.Ok? ==>
              forall i :: 0 <= i < |texts| ==> r.value[i] == LinguisticFeatures(texts[i], nlp(texts[i]), glossary).value
    ensures r.Err? ==> r.error == ZeroDivisionError
  {
    MapAll(texts, t => LinguisticFeatures(t, nlp(t), glossary))
  }

  // ---------------------------------------------------------------------------
  // Properties of the feature map

  /** The glossary loop adds exactly the glossary's keys. */
  lemma {:induction false} LabelFeatureKeys(m: Features, labels: seq<string>, tokenCount: nat, glossary: seq<string>)
    requires tokenCount > 0
    ensures WithLabelFeatures(m, labels, tokenCount, glossary).Keys == m.Keys + LabelKeys(glossary)
    decreases |glossary|
  {
    if glossary != [] {
      var init := glossary[..|glossary| - 1];
      var name := glossary[|glossary| - 1];
      LabelFeatureKeys(m, labels, tokenCount, init);
      assert glossary == init + [name];
      assert LabelKeys(glossary) == LabelKeys(init) + {CountKey(name), RatioKey(name)};
    }
  }

  /** Every text that does not raise gets the same keys: the six base keys plus `count_<label>`
      and `ratio_<label>` for each glossary name, whatever the text and the tagger's output. */
  lemma FeatureKeys(text: string, doc: Doc, glossary: seq<string>)
    ensures LinguisticFeatures(text, doc, glossary).Ok? ==>
              LinguisticFeatures(text, doc, glossary).value.Keys == BaseKeys + LabelKeys(glossary)
  {
    if |doc.tokens| > 0 && doc.sentenceCount > 0 {
      LabelFeatureKeys(BaseFeatures(text, doc), AllLabels(doc), |doc.tokens|, glossary);
    }
  }

  /** A count key and a ratio key never coincide. */
  lemma CountNotRatio(a: string, b: string)
    ensures CountKey(a) != RatioKey(b)
  {
    assert CountKey(a)[0] == 'c' && RatioKey(b)[0] == 'r';
  }

  /** Count keys of different labels are different. */
  lemma CountKeyInjective(a: string, b: string)
    requires CountKey(a) == CountKey(b)
    ensures a == b
  {
    assert a == CountKey(a)[6..] && b == CountKey(b)[6..];
  }

  lemma RatioKeyInjective(a: string, b: string)
    requires RatioKey(a) == RatioKey(b)
    ensures a == b
  {
    assert a == RatioKey(a)[6..] && b == RatioKey(b)[6..];
  }

  /** After the loop, `count_<label>` is the name's count in `labels` and `ratio_<label>`
      that count over the number of tokens, for every glossary name. */
  lemma {:induction false} LabelFeatureValues(m: Features, labels: seq<string>, tokenCount: nat, glossary: seq<string>, name: string)
    requires tokenCount > 0 && name in glossary
    ensures CountKey(name) in WithLabelFeatures(m, labels, tokenCount, glossary)
    ensures RatioKey(name) in WithLabelFeatures(m, labels, tokenCount, glossary)
    ensures WithLabelFeatures(m, labels, tokenCount, glossary)[CountKey(name)]
              == IntFeature(Occurrences(labels, name))
    ensures WithLabelFeatures(m, labels, tokenCount, glossary)[RatioKey(name)]
              == RealFeature(Occurrences(labels, name) as real / tokenCount as real)
    decreases |glossary|
  {
    var init := glossary[..|glossary| - 1];
    var last := glossary[|glossary| - 1];
    CountNotRatio(name, last);
    CountNotRatio(last, name);
    if name != last {
      assert glossary == init + [last];
      assert name in init;
      LabelFeatureValues(m, labels, tokenCount, init, name);
      if CountKey(name) == CountKey(last) { CountKeyInjective(name, last); }
      if RatioKey(name) == RatioKey(last) { RatioKeyInjective(name, last); }
    }
  }

  /** A key the loop never writes keeps the value it had before the loop. */
  lemma {:induction false} LabelFeaturesKeep(m: Features, labels: seq<string>, tokenCount: nat, glossary: seq<string>, key: string)
    requires tokenCount > 0 && key in m
    requires key !in LabelKeys(glossary)
    ensures key in WithLabelFeatures(m, labels, tokenCount, glossary)
    ensures WithLabelFeatures(m, labels, tokenCount, glossary)[key] == m[key]
    decreases |glossary|
  {
    if glossary != [] {
      var init := glossary[..|glossary| - 1];
      var last := glossary[|glossary| - 1];
      assert glossary == init + [last];
      assert LabelKeys(init) <= LabelKeys(glossary);
      assert CountKey(last) in LabelKeys(glossary) && RatioKey(last) in LabelKeys(glossary);
      LabelFeaturesKeep(m, labels, tokenCount, init, key);
    }
  }

  /** No glossary name turns into one of the base keys. The glossary loop runs after the dict
      literal, so such a name would overwrite a base statistic. */
  predicate NoShadowing(glossary: seq<string>)
  {
    "of_tokens" !in glossary && "unique_tokens" !in glossary && "sentences" !in glossary
  }

  /** Base keys the glossary can overwrite are exactly those named by NoShadowing. */
  lemma BaseKeysNotWritten(glossary: seq<string>, key: string)
    requires key in BaseKeys
    requires NoShadowing(glossary) || key == "text_length" || key == "tokens_per_sentence"
    ensures key !in LabelKeys(glossary)
  {
    assert "text_length"[..6] == "text_l" && "tokens_per_sentence"[..6] == "tokens";
    assert "count_of_tokens"[6..] == "of_tokens" && "count_sentences"[6..] == "sentences";
    assert "count_unique_tokens"[6..] == "unique_tokens" && "ratio_unique_tokens"[6..] == "unique_tokens";
    if key in LabelKeys(glossary) {
      LabelKeyShape(glossary, key);
      assert false;
    }
  }

  /** A key the glossary loop writes is `count_` or `ratio_` followed by a glossary label. */
  lemma LabelKeyShape(glossary: seq<string>, key: string)
    requires key in LabelKeys(glossary)
    ensures |key| >= 6 && key[6..] in glossary && (key[..6] == "count_" || key[..6] == "ratio_")
  {
    var l :| l in glossary && (key == CountKey(l) || key == RatioKey(l));
    assert key[6..] == l;
  }

  /** The dict literal's entries. */
  lemma BaseFeaturesEntries(text: string, doc: Doc)
    requires |doc.tokens| > 0 && doc.sentenceCount > 0
    ensures var base := BaseFeatures(text, doc);
            base["text_length"] == IntFeature(|text|) &&
            base["count_of_tokens"] == IntFeature(|Lemmas(doc)|) &&
            base["count_unique_tokens"] == IntFeature(DistinctCount(Lemmas(doc))) &&
            base["ratio_unique_tokens"] == RealFeature(DistinctCount(Lemmas(doc)) as real / |Lemmas(doc)| as real) &&
            base["count_sentences"] == IntFeature(doc.sentenceCount) &&
            base["tokens_per_sentence"] == RealFeature(|doc.tokens| as real / doc.sentenceCount as real)
  {
  }

  /** `text_length` is the length of the text whatever the tagger returned, and
      `tokens_per_sentence` is tokens over sentences: the glossary cannot overwrite either. */
  lemma BaseFeatureValues(text: string, doc: Doc, glossary: seq<string>)
    ensures var r := LinguisticFeatures(text, doc, glossary);
            r.Ok? ==>
              "text_length" in r.value && r.value["text_length"] == IntFeature(|text|) &&
              "tokens_per_sentence" in r.value &&
              r.value["tokens_per_sentence"] == RealFeature(|doc.tokens| as real / doc.sentenceCount as real)
  {
    if |doc.tokens| > 0 && doc.sentenceCount > 0 {
      BaseFeaturesEntries(text, doc);
      BaseKeyKept(text, doc, glossary, "text_length");
      BaseKeyKept(text, doc, glossary, "tokens_per_sentence");
    }
  }

  /** Unless the glossary overwrites them, `count_of_tokens` is the number of lemmas,
      `count_unique_tokens` the number of distinct lemmas, `ratio_unique_tokens` their quotient
      and `count_sentences` the sentence count. */
  lemma UnshadowedFeatureValues(text: string, doc: Doc, glossary: seq<string>)
    requires NoShadowing(glossary)
    ensures var r := LinguisticFeatures(text, doc, glossary);
            r.Ok? ==>
              BaseKeys <= r.value.Keys &&
              r.value["count_of_tokens"] == IntFeature(|Lemmas(doc)|) &&
              r.value["count_unique_tokens"] == IntFeature(DistinctCount(Lemmas(doc))) &&
              r.value["ratio_unique_tokens"]
                == RealFeature(DistinctCount(Lemmas(doc)) as real / |Lemmas(doc)| as real) &&
              r.value["count_sentences"] == IntFeature(doc.sentenceCount)
  {
    if |doc.tokens| > 0 && doc.sentenceCount > 0 {
      BaseFeaturesEntries(text, doc);
      forall key | key in BaseKeys
        ensures key in LinguisticFeatures(text, doc, glossary).value
        ensures LinguisticFeatures(text, doc, glossary).value[key] == BaseFeatures(text, doc)[key]
      {
        BaseKeyKept(text, doc, glossary, key);
      }
    }
  }

  /** A base key the glossary does not overwrite keeps its dict-literal value. */
  lemma BaseKeyKept(text: string, doc: Doc, glossary: seq<string>, key: string)
    requires |doc.tokens| > 0 && doc.sentenceCount > 0 && key in BaseKeys
    requires NoShadowing(glossary) || key == "text_length" || key == "tokens_per_sentence"
    ensures key in LinguisticFeatures(text, doc, glossary).value
    ensures LinguisticFeatures(text, doc, glossary).value[key] == BaseFeatures(text, doc)[key]
  {
    BaseKeysNotWritten(glossary, key);
    LabelFeaturesKeep(BaseFeatures(text, doc), AllLabels(doc), |doc.tokens|, glossary, key);
  }

  /** For every glossary name L, `count_L` is the number of occurrences of L in
      pos ++ tag ++ dep ++ entity labels (0 when absent, at most the length of that list)
      and `ratio_L` is that count over the number of tokens, never negative. */
  lemma GlossaryFeatureValues(text: string, doc: Doc, glossary: seq<string>, name: string)
    requires name in glossary
    ensures var r := LinguisticFeatures(text, doc, glossary);
            r.Ok? ==>
              CountKey(name) in r.value && RatioKey(name) in r.value &&
              r.value[CountKey(name)] == IntFeature(Occurrences(AllLabels(doc), name)) &&
              r.value[RatioKey(name)]
                == RealFeature(Occurrences(AllLabels(doc), name) as real / |doc.tokens| as real) &&
              (name !in AllLabels(doc) ==> r.value[CountKey(name)] == IntFeature(0)) &&
              0 <= r.value[CountKey(name)].n <= |AllLabels(doc)| &&
              r.value[RatioKey(name)].x >= 0.0
  {
    if |doc.tokens| > 0 && doc.sentenceCount > 0 {
      var labels := AllLabels(doc);
      var features := WithLabelFeatures(BaseFeatures(text, doc), labels, |doc.tokens|, glossary);
      assert LinguisticFeatures(text, doc, glossary) == Ok(features);
      LabelFeatureValues(BaseFeatures(text, doc), labels, |doc.tokens|, glossary, name);
      RatioBounds(Occurrences(labels, name), |doc.tokens|);
    }
  }

  /** A count over a positive count is non-negative, and lies in (0, 1] when the first count
      is positive and at most the second. */
  lemma RatioBounds(a: nat, b: nat)
    requires b > 0
    ensures a as real / b as real >= 0.0
    ensures a <= b ==> a as real / b as real <= 1.0
    ensures 0 < a ==> 0.0 < a as real / b as real
  {
    var q := a as real / b as real;
    assert q * b as real == a as real;
  }

  /** For a text with tokens: 1 <= unique lemmas <= tokens, so the unique-token ratio lies in (0, 1]. */
  lemma UniqueRatioBounds(text: string, doc: Doc, glossary: seq<string>)
    requires NoShadowing(glossary)
    ensures var r := LinguisticFeatures(text, doc, glossary);
            r.Ok? ==>
              "count_unique_tokens" in r.value && "ratio_unique_tokens" in r.value &&
              r.value["count_unique_tokens"].IntFeature? &&
              1 <= r.value["count_unique_tokens"].n <= |doc.tokens| &&
              r.value["ratio_unique_tokens"].RealFeature? &&
              0.0 < r.value["ratio_unique_tokens"].x <= 1.0
  {
    UnshadowedFeatureValues(text, doc, glossary);
    if |doc.tokens| > 0 && doc.sentenceCount > 0 {
      RatioBounds(DistinctCount(Lemmas(doc)), |Lemmas(doc)|);
    }
  }

  /** The key set does not depend on the text or on what the tagger returned for it. */
  lemma SameKeysForEveryText(text1: string, doc1: Doc, text2: string, doc2: Doc, glossary: seq<string>)
    requires LinguisticFeatures(text1, doc1, glossary).Ok? && LinguisticFeatures(text2, doc2, glossary).Ok?
    ensures LinguisticFeatures(text1, doc1, glossary).value.Keys == LinguisticFeatures(text2, doc2, glossary).value.Keys
  {
    FeatureKeys(text1, doc1, glossary);
    FeatureKeys(text2, doc2, glossary);
  }

  /** How many of a token's three tag lists hold `name`. */
  function TokenHits(t: Token, name: string): nat
  {
    (if t.pos == name then 1 else 0) + (if t.tag == name then 1 else 0) + (if t.dep == name then 1 else 0)
  }

  lemma {:induction false} PerTokenCount(tokens: seq<Token>, name: string)
    requires forall t :: t in tokens ==> TokenHits(t, name) <= 1
    ensures Occurrences(PosLabels(tokens), name) + Occurrences(TagLabels(tokens), name)
            + Occurrences(DepLabels(tokens), name) <= |tokens|
  {
    if tokens != [] {
      PerTokenCount(tokens[1..], name);
      assert PosLabels(tokens)[1..] == PosLabels(tokens[1..]);
      assert TagLabels(tokens)[1..] == TagLabels(tokens[1..]);
      assert DepLabels(tokens)[1..] == DepLabels(tokens[1..]);
      assert TokenHits(tokens[0], name) <= 1;
    }
  }

  /** `ratio_<name>` is at most 1 when no token carries `name` in more than one of its three tag
      lists and no entity label is `name`; the code itself does not guarantee this. */
  lemma RatioAtMostOne(text: string, doc: Doc, glossary: seq<string>, name: string)
    requires name in glossary && name !in doc.entityLabels
    requires forall t :: t in doc.tokens ==> TokenHits(t, name) <= 1
    ensures var r := LinguisticFeatures(text, doc, glossary);
            r.Ok? ==> RatioKey(name) in r.value && r.value[RatioKey(name)].RealFeature? &&
                      r.value[RatioKey(name)].x <= 1.0
  {
    if |doc.tokens| > 0 && doc.sentenceCount > 0 {
      GlossaryFeatureValues(text, doc, glossary, name);
      PerTokenCount(doc.tokens, name);
      var pos, tag, dep := PosLabels(doc.tokens), TagLabels(doc.tokens), DepLabels(doc.tokens);
      assert AllLabels(doc) == pos + tag + dep + doc.entityLabels;
      assert multiset(AllLabels(doc)) == multiset(pos) + multiset(tag) + multiset(dep) + multiset(doc.entityLabels);
      assert Occurrences(doc.entityLabels, name) == 0;
      RatioBounds(Occurrences(AllLabels(doc), name), |doc.tokens|);
    }
  }

  /** Without that condition the ratio can exceed 1: a one-token text whose token carries the
      label both as coarse and as fine tag (spaCy tags a symbol `SYM` in both) gets ratio 2. */
  lemma RatioCanExceedOne(text: string, doc: Doc, glossary: seq<string>, name: string)
    requires name in glossary && name !in doc.entityLabels
    requires |doc.tokens| == 1 && doc.sentenceCount > 0
    requires doc.tokens[0].pos == name && doc.tokens[0].tag == name && doc.tokens[0].dep != name
    ensures var r := LinguisticFeatures(text, doc, glossary);
            r.Ok? && RatioKey(name) in r.value && r.value[RatioKey(name)] == RealFeature(2.0)
  {
    OneTokenLabels(doc);
    var labels := AllLabels(doc);
    CountTwice(labels, name, doc.tokens[0].dep, doc.entityLabels);
    GlossaryFeatureValues(text, doc, glossary, name);
    var c := Occurrences(labels, name);
    assert |doc.tokens| as real == 1.0;
    assert c as real / 1.0 == 2.0;
  }

  /** `name`, `name`, another label, then labels other than `name`: two occurrences. */
  lemma CountTwice(labels: seq<string>, name: string, other: string, rest: seq<string>)
    requires labels == [name, name, other] + rest
    requires other != name && name !in rest
    ensures Occurrences(labels, name) == 2
  {
    assert multiset(labels) == multiset{name, name, other} + multiset(rest);
    assert multiset(rest)[name] == 0;
  }

  lemma OneTokenLabels(doc: Doc)
    requires |doc.tokens| == 1
    ensures AllLabels(doc) == [doc.tokens[0].pos, doc.tokens[0].tag, doc.tokens[0].dep] + doc.entityLabels
  {
    var ts := doc.tokens;
    assert ts[1..] == [];
    assert PosLabels(ts) == [ts[0].pos] && TagLabels(ts) == [ts[0].tag] && DepLabels(ts) == [ts[0].dep];
  }
}

/**
  The parts of `BertEmbedder` (src/embedder.py) that are not neural-network
  numerics: the layer selection, the alignment of the words of the filtered
  text with the tokenizer's sub-word tokens, and the "no embedding" result.

  The tokenizer and the model are foreign: the number of hidden states the
  model returns and the tokenizer's `word_ids()` enter as parameters. What is
  produced is a `Pooling`: which hidden-state layers are summed and which
  sub-token positions are averaged for each word, i.e. everything the
  embedding is computed from except the numbers themselves.
 */
module Embedder {
  import opened Common
  import opened Text

  /** Errors the layer stacking of src/embedder.py:31 raises. */
  datatype EmbedError =
    | LayerIndexError(layer: int)  // `states[i]` with `i` out of range
    | EmptyLayerStack              // `torch.stack([])`

  /** The recipe of one sentence embedding. */
  datatype Pooling = Pooling(layers: seq<nat>, words: seq<seq<nat>>)

  /** The layers used when none are given (src/embedder.py:15). */
  const DefaultLayers: seq<int> := [-4, -3, -2, -1]

  /** The layers `__init__` stores: the default when none are given, else the given list. */
  function ChooseLayers(layers: Option<seq<int>>): (chosen: seq<int>)
    ensures layers.Some? ==> chosen == layers.value
    ensures layers.None? ==> |chosen| == 4 && forall k :: 0 <= k < 4 ==> chosen[k] == k - 4
  {
    if layers.None? then DefaultLayers else layers.value
  }

  /** Python indexing `states[i]` into a tuple of `n` states. */
  function ResolveIndex(i: int, n: nat): (r: Option<nat>)
    ensures r.Some? <==> -(n as int) <= i < n
    ensures r.Some? ==> r.value < n && (r.value - i) % n == 0
  {
    if 0 <= i < n then Some(i)
    else if -(n as int) <= i < 0 then Some(n + i)
    else None
  }

  /** The hidden states stacked for the chosen layers (src/embedder.py:31), as their indices. */
  function SelectLayers(layers: seq<int>, n: nat): (r: Result<seq<nat>, EmbedError>)
    ensures r.Success? <==> layers != [] && forall k :: 0 <= k < |layers| ==> -(n as int) <= layers[k] < n
    ensures r.Success? ==> (|r.value| == |layers| &&
              forall k :: 0 <= k < |layers| ==> Some(r.value[k]) == ResolveIndex(layers[k], n))
    ensures r.Failure? ==> (r.error.EmptyLayerStack? <==> layers == [])
    ensures r.Failure? && layers != [] ==>
              r.error.LayerIndexError? && exists k :: FirstBadLayer(layers, n, k) && layers[k] == r.error.layer
  {
    match ResolveAll(layers, n)
    case Failure(e) => Failure(e)
    case Success(states) => if states == [] then Failure(EmptyLayerStack) else Success(states)
  }

  /** Position `k` holds the first layer index that is out of range for `n` states. */
  predicate FirstBadLayer(layers: seq<int>, n: nat, k: int) {
    && 0 <= k < |layers|
    && ResolveIndex(layers[k], n).None?
    && forall j :: 0 <= j < k ==> ResolveIndex(layers[j], n).Some?
  }

  /** The list comprehension over `layers`: the first bad index raises. */
  function ResolveAll(layers: seq<int>, n: nat): (r: Result<seq<nat>, EmbedError>)
    ensures r.Success? <==> forall k :: 0 <= k < |layers| ==> -(n as int) <= layers[k] < n
    ensures r.Success? ==> (|r.value| == |layers| &&
              forall k :: 0 <= k < |layers| ==> Some(r.value[k]) == ResolveIndex(layers[k], n))
    ensures r.Failure? ==> (r.error.LayerIndexError? &&
              exists k :: FirstBadLayer(layers, n, k) && layers[k] == r.error.layer)
  {
    if layers == [] then Success([])
    else match ResolveIndex(layers[0], n)
      case None => Failure(LayerIndexError(layers[0]))
      case Some(s) =>
        match ResolveAll(layers[1..], n)
        case Failure(e) => Failure(e)
        case Success(rest) => Success([s] + rest)
  }

  /** With at least four hidden states, the default is the four closest to the output. */
  lemma DefaultLayersAreLastFour(n: nat)
    requires n >= 4
    ensures SelectLayers(ChooseLayers(None), n) == Success([n - 4, n - 3, n - 2, n - 1])
  {
    var r := SelectLayers(DefaultLayers, n);
    assert r.Success?;
    assert r.value == [n - 4, n - 3, n - 2, n - 1] by {
      forall k | 0 <= k < 4 ensures r.value[k] == n - 4 + k {
        assert Some(r.value[k]) == ResolveIndex(DefaultLayers[k], n);
      }
    }
  }

  /** `tokens.index(token)`: the first position holding `token`. */
  function IndexOf(tokens: seq<string>, token: string): (idx: nat)
    requires token in tokens
    ensures idx < |tokens| && tokens[idx] == token
    ensures forall j :: 0 <= j < idx ==> tokens[j] != token
  {
    if tokens[0] == token then 0 else 1 + IndexOf(tokens[1..], token)
  }

  /** The sub-token positions whose word id is `idx`, ascending (src/embedder.py:38). */
  function Positions(wordIds: seq<Option<nat>>, idx: nat): (ps: seq<nat>)
    ensures forall k :: 0 <= k < |ps| ==> ps[k] < |wordIds|
    ensures forall j :: j in ps <==> 0 <= j < |wordIds| && wordIds[j] == Some(idx)
    ensures forall a, b :: 0 <= a < b < |ps| ==> ps[a] < ps[b]
  {
    if wordIds == [] then []
    else
      var n := |wordIds| - 1;
      Positions(wordIds[..n], idx) + (if wordIds[n] == Some(idx) then [n] else [])
  }

  /** The per-word entries the loop of src/embedder.py:36-43 appends, in word order. */
  function Alignment(tokens: seq<string>, wordIds: seq<Option<nat>>): (groups: seq<seq<nat>>)
    ensures |groups| == |tokens|
  {
    seq(|tokens|, p requires 0 <= p < |tokens| => Positions(wordIds, IndexOf(tokens, tokens[p])))
  }

  /**
    Each word is looked up by its first occurrence: the index found holds the
    same word, is not after it, and no earlier position holds that word. The
    selected positions are exactly those the tokenizer maps to that index;
    special tokens, mapped to no word, are never selected.
   */
  lemma AlignmentOfWord(tokens: seq<string>, wordIds: seq<Option<nat>>, p: nat)
    requires p < |tokens|
    ensures var idx := IndexOf(tokens, tokens[p]);
            && idx <= p && tokens[idx] == tokens[p]
            && (forall j :: 0 <= j < idx ==> tokens[j] != tokens[p])
            && (forall j :: j in Alignment(tokens, wordIds)[p] <==>
                  0 <= j < |wordIds| && wordIds[j] == Some(idx))
            && (forall j :: 0 <= j < |wordIds| && wordIds[j].None? ==>
                  j !in Alignment(tokens, wordIds)[p])
  {
  }

  /** Every occurrence of a repeated word is aligned with the sub-tokens of its first occurrence. */
  lemma RepeatedWordsShareAlignment(tokens: seq<string>, wordIds: seq<Option<nat>>, p: nat, q: nat)
    requires p < q < |tokens| && tokens[p] == tokens[q]
    ensures Alignment(tokens, wordIds)[q] == Alignment(tokens, wordIds)[p]
    ensures Alignment(tokens, wordIds)[q] == Positions(wordIds, IndexOf(tokens, tokens[q]))
    ensures IndexOf(tokens, tokens[q]) != q
  {
  }

  /** `"a a"` with sub-tokens [CLS] a a [SEP]: both words are pooled from position 1 only. */
  lemma RepeatedWordExample()
    ensures Alignment(["a", "a"], [None, Some(0), Some(1), None]) == [[1], [1]]
  {
    var wordIds: seq<Option<nat>> := [None, Some(0), Some(1), None];
    assert IndexOf(["a", "a"], "a") == 0;
    assert wordIds[..3] == [None, Some(0), Some(1)];
    assert wordIds[..3][..2] == [None, Some(0)];
    assert wordIds[..3][..2][..1] == [None];
    assert Positions(wordIds[..3][..2][..1], 0) == [];
    assert Positions(wordIds, 0) == [1];
  }

  class BertEmbedder {
    /** `self.layers`: the hidden-state indices summed into a sub-token vector. */
    var layers: seq<int>

    /** `__init__(layers=None)`; loading the tokenizer and the model is not modelled. */
    constructor (layers: Option<seq<int>>)
      ensures this.layers == ChooseLayers(layers)
    {
      this.layers := ChooseLayers(layers);
    }

    /**
      `get_embeddings(text)`, given the number `numStates` of hidden states
      the model returns and the tokenizer's `word_ids()` for the filtered
      text. The tokenizer and the forward pass are taken to return, so the
      modelled errors are the layer errors: a layer index out of range, or no
      layer chosen. Otherwise the result is no embedding exactly when every
      token of the text is a stop word, and else one pooled entry per
      remaining word.
     */
    method GetEmbeddings(text: string, stopWords: set<string>, numStates: nat, wordIds: seq<Option<nat>>)
      returns (r: Result<Option<Pooling>, EmbedError>)
      ensures r.Failure? <==> SelectLayers(layers, numStates).Failure?
      ensures r.Failure? ==> r.error == SelectLayers(layers, numStates).error
      ensures r == Success(None) <==>
                SelectLayers(layers, numStates).Success? &&
                forall t :: t in Split(text) ==> IsStopWord(t, stopWords)
      ensures r.Success? && r.value.Some? ==>
                var words := Split(RemoveStopWords(text, stopWords));
                && r.value.value.layers == SelectLayers(layers, numStates).value
                && |r.value.value.words| == |words| > 0
                && words == KeepTokens(Split(text), stopWords)
                && r.value.value.words == Alignment(words, wordIds)
    {
      var filtered := RemoveStopWords(text, stopWords);
      var selected := SelectLayers(layers, numStates);
      if selected.Failure? {
        return Failure(selected.error);
      }
      var tokens := Split(filtered);
      var words: seq<seq<nat>> := [];
      for p := 0 to |tokens|
        invariant |words| == p
        invariant forall q :: 0 <= q < p ==> words[q] == Positions(wordIds, IndexOf(tokens, tokens[q]))
      {
        var idx := IndexOf(tokens, tokens[p]);
        words := words + [Positions(wordIds, idx)];
      }
      SplitFiltered(text, stopWords);
      NothingKept(text, stopWords);
      assert words == Alignment(tokens, wordIds);
      if words == [] {
        return Success(None);
      }
      return Success(Some(Pooling(selected.value, words)));
    }
  }
}

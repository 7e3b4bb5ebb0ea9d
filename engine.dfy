/**
 * The recommender itself: the artefacts it loads at start-up and the request paths
 * (matrix-factorisation scoring, session-history scoring, the category fallback and
 * cold start) with their routing and error handling.
 */
module Engine {
  import opened Basics
  import opened Codec
  import opened Ranking
  import opened Catalog
  import opened Fallback

  /** The path a request is first routed to. */
  datatype Strategy = MatrixFactorisation | SessionHistory | ColdStart

  /** Which path chose the items of a reply. */
  datatype Source = FromFactors | FromHistory | FromCategory | FromPopularity

  /**
   * A reply: the product records the caller receives, together with the item codes they
   * were resolved from and the path that chose those codes.
   */
  datatype Reply = Reply(source: Source, codes: seq<string>, products: seq<ProductView>)

  /** The outcome of the guarded matrix-factorisation block: ranked codes, or the exception it catches. */
  datatype Scoring = Scored(codes: seq<string>) | Degraded(reason: Fault)

  /**
   * Routing: a request goes to session history when the user is unknown or has fewer
   * interactions than the threshold and a session is present; otherwise an unknown user
   * gets cold start and a known one matrix factorisation, even a known user below the
   * threshold whose session is empty.
   */
  function Route(user: Option<nat>, nnz: int, threshold: int, session: seq<string>): (s: Strategy)
    ensures s == SessionHistory <==> (user.None? || nnz < threshold) && session != []
    ensures s == ColdStart <==> user.None? && session == []
    ensures s == MatrixFactorisation <==> user.Some? && (nnz >= threshold || session == [])
  {
    var live := user.None? || nnz < threshold;
    if live && session != [] then SessionHistory
    else if user.None? then ColdStart
    else MatrixFactorisation
  }

  /** Every index is below `n`. */
  predicate AllBelow(s: seq<nat>, n: int)
  {
    forall t :: 0 <= t < |s| ==> s[t] < n
  }

  /** Masking a list with one more index masks that index on top. */
  lemma MaskedSnoc(s: seq<Score>, idx: seq<nat>, i: nat)
    requires i < |s|
    ensures Masked(s, idx + [i]) == Masked(s, idx)[i := NegInf]
  {
    forall j | 0 <= j < |s| ensures Masked(s, idx + [i])[j] == Masked(s, idx)[i := NegInf][j] {
      assert j in idx + [i] <==> j in idx || j == i;
    }
  }

  /** One more identifier of the session extends its known indices by that identifier's index, if any. */
  lemma KnownIndicesStep(e: Encoder, ids: seq<string>, j: nat)
    requires j < |ids|
    ensures KnownIndices(e, ids[..j + 1]) ==
            KnownIndices(e, ids[..j]) + (match Encode(e, ids[j]) case None => [] case Some(i) => [i])
  {
    assert ids[..j + 1] == ids[..j] + [ids[j]];
    KnownIndicesSnoc(e, ids[..j], ids[j]);
  }

  /**
   * One more session identifier: masking its index, when it is known and in range, turns the
   * mask of the shorter prefix into the mask of the longer one.
   */
  lemma MaskStep(orig: seq<Score>, e: Encoder, ids: seq<string>, j: nat)
    requires j < |ids| && AllBelow(KnownIndices(e, ids[..j]), |orig|)
    requires Encode(e, ids[j]).Some? ==> Encode(e, ids[j]).value < |orig|
    ensures AllBelow(KnownIndices(e, ids[..j + 1]), |orig|)
    ensures Masked(orig, KnownIndices(e, ids[..j + 1])) ==
            (match Encode(e, ids[j])
             case None => Masked(orig, KnownIndices(e, ids[..j]))
             case Some(i) => Masked(orig, KnownIndices(e, ids[..j]))[i := NegInf])
  {
    KnownIndicesStep(e, ids, j);
    var done := KnownIndices(e, ids[..j]);
    match Encode(e, ids[j]) {
      case None =>
        assert done + [] == done;
      case Some(i) =>
        MaskedSnoc(orig, done, i);
    }
  }

  /** A known identifier whose index is at least `n` makes the known indices exceed `n`. */
  lemma KnownIndexOutside(e: Encoder, ids: seq<string>, j: nat, n: int)
    requires j < |ids| && Encode(e, ids[j]).Some? && Encode(e, ids[j]).value >= n
    ensures !AllBelow(KnownIndices(e, ids), n)
  {
    var known := KnownIndices(e, ids);
    assert ids[j] in ids;
    assert Encode(e, ids[j]).value in known;
    var t :| 0 <= t < |known| && known[t] == Encode(e, ids[j]).value;
  }

  /** `codes` is a decoded top `k` of `scores`. */
  ghost predicate TopCodes(items: Encoder, scores: seq<Score>, k: nat, codes: seq<string>)
  {
    exists idx: seq<nat> :: IsTopK(scores, k, idx) && DecodeAll(items, idx) == Some(codes)
  }

  /** A ranked reply: a decoded top `k` of `scores`, resolved against the store. */
  ghost predicate RankedFrom(items: Encoder, scores: seq<Score>, k: nat, db: map<string, Product>,
                             parse: string -> Option<seq<string>>, source: Source, reply: Reply)
  {
    && reply.source == source
    && reply.products == Resolve(db, reply.codes, parse)
    && TopCodes(items, scores, k, reply.codes)
  }

  /** The ranked indices behind decoded top-k codes, each the encoding of the code at its position. */
  lemma TopIndicesOf(items: Encoder, scores: seq<Score>, k: nat, codes: seq<string>) returns (idx: seq<nat>)
    requires Fitted(items) && TopCodes(items, scores, k, codes)
    ensures IsTopK(scores, k, idx) && |idx| == |codes| && DecodeAll(items, idx) == Some(codes)
    ensures forall t :: 0 <= t < |idx| ==> idx[t] < |items.classes|
    ensures forall t :: 0 <= t < |idx| ==> codes[t] == items.classes[idx[t]]
    ensures forall t :: 0 <= t < |idx| ==> Encode(items, codes[t]) == Some(idx[t])
  {
    idx :| IsTopK(scores, k, idx) && DecodeAll(items, idx) == Some(codes);
    forall t | 0 <= t < |idx| ensures Encode(items, codes[t]) == Some(idx[t]) {
      EncodeDecode(items, idx[t]);
    }
  }

  /**
   * Decoded top-k codes number exactly `min(k, N)`, so at most `k`; no code appears twice,
   * and each is a known item code.
   */
  lemma RankedReplyShape(items: Encoder, scores: seq<Score>, k: nat, codes: seq<string>)
    requires Fitted(items) && TopCodes(items, scores, k, codes)
    ensures |codes| == Min(k, |scores|) && |codes| <= k
    ensures Distinct(codes)
    ensures forall c :: c in codes ==> c in items.classes
  {
    var idx := TopIndicesOf(items, scores, k, codes);
    assert Distinct(idx) && |idx| == Min(k, |scores|);
    DecodeAllDistinct(items, idx);
    forall c | c in codes ensures c in items.classes {
      var t :| 0 <= t < |codes| && codes[t] == c;
      assert codes[t] == items.classes[idx[t]];
    }
  }

  /** A ranked reply holds at most `k` codes, none twice, and no more records than codes. */
  lemma RankedBound(items: Encoder, scores: seq<Score>, k: nat, db: map<string, Product>,
                    parse: string -> Option<seq<string>>, source: Source, reply: Reply)
    requires Fitted(items) && RankedFrom(items, scores, k, db, parse, source, reply)
    ensures |reply.codes| <= k && |reply.products| <= |reply.codes| && Distinct(reply.codes)
  {
    RankedReplyShape(items, scores, k, reply.codes);
  }

  /**
   * Among decoded top-k codes, an item whose score is masked appears only once every
   * unmasked item is among them; so none appears when at least `k` items are unmasked.
   */
  lemma RankedReplyAvoidsMasked(items: Encoder, scores: seq<Score>, k: nat, codes: seq<string>, t: nat)
    requires Fitted(items) && TopCodes(items, scores, k, codes) && t < |codes|
    ensures Encode(items, codes[t]).Some? && Encode(items, codes[t]).value < |scores|
    ensures scores[Encode(items, codes[t]).value].NegInf? ==>
              forall x :: x in Unmasked(scores) ==> x < |items.classes| && items.classes[x] in codes
    ensures |Unmasked(scores)| >= k ==> scores[Encode(items, codes[t]).value].Finite?
  {
    var idx := TopIndicesOf(items, scores, k, codes);
    if scores[idx[t]].NegInf? {
      MaskedOnlyWhenExhausted(scores, k, idx, t);
      forall x | x in Unmasked(scores) ensures x < |items.classes| && items.classes[x] in codes {
        var u :| 0 <= u < |idx| && idx[u] == x;
        assert codes[u] == items.classes[x];
      }
    }
    if |Unmasked(scores)| >= k {
      NoMaskedWhenEnough(scores, k, idx);
    }
  }

  /** The recommender with the artefacts it holds after start-up. */
  class Recommender {
    const userEncoder: Encoder
    const itemEncoder: Encoder
    /** ALS user and item factor matrices. */
    const userFactors: Matrix
    const itemFactors: Matrix
    /** The interaction matrix, one row per user: the column indices of the row's stored entries. */
    const train: seq<seq<nat>>
    const config: map<string, int>
    const recentItems: Popularity
    /** The metadata table, its code index, and the category map built from it. */
    const metaRows: seq<MetaRow>
    const meta: map<string, Option<string>>
    const categoryMap: map<string, seq<string>>
    /** Cosine similarity of an item's factor row with the session profile. */
    const similarity: (seq<real>, seq<real>) -> real
    /** `ast.literal_eval` of a string that should hold a list of strings, `None` when it raises. */
    const literalEval: string -> Option<seq<string>>

    /** The encoders are fitted and the factor matrices rectangular. */
    ghost predicate Shaped()
      reads this
    {
      Fitted(userEncoder) && Fitted(itemEncoder) && Rectangular(userFactors) && Rectangular(itemFactors)
    }

    /** The artefacts are shaped as the request paths assume, and the indexes agree with the table. */
    ghost predicate Valid()
      reads this
    {
      && Shaped()
      && UniqueAsins(metaRows)
      && meta == MetaIndex(metaRows)
      && categoryMap == CategoryIndex(metaRows)
    }

    /** The configured cold threshold, 3 when the configuration has none. */
    function Threshold(): (r: int)
      reads this
      ensures "cold_threshold" in config ==> r == config["cold_threshold"]
      ensures "cold_threshold" !in config ==> r == 3
    {
      if "cold_threshold" in config then config["cold_threshold"] else 3
    }

    /** Start-up: holds the loaded artefacts and builds the category map, one group per category. */
    constructor (userEncoder: Encoder, itemEncoder: Encoder, userFactors: Matrix, itemFactors: Matrix,
                 train: seq<seq<nat>>, config: map<string, int>, recentItems: Popularity,
                 metaRows: seq<MetaRow>, similarity: (seq<real>, seq<real>) -> real,
                 literalEval: string -> Option<seq<string>>)
      requires Fitted(userEncoder) && Fitted(itemEncoder)
      requires Rectangular(userFactors) && Rectangular(itemFactors)
      requires UniqueAsins(metaRows)
      ensures Valid()
      ensures this.userEncoder == userEncoder && this.itemEncoder == itemEncoder
      ensures this.userFactors == userFactors && this.itemFactors == itemFactors
      ensures this.train == train && this.config == config && this.recentItems == recentItems
      ensures this.metaRows == metaRows && this.meta == MetaIndex(metaRows)
      ensures this.similarity == similarity && this.literalEval == literalEval
      ensures forall c :: c in this.categoryMap <==> exists i :: 0 <= i < |metaRows| && metaRows[i].mainCat == Some(c)
      ensures forall c :: c in this.categoryMap ==> this.categoryMap[c] == Members(metaRows, c) && this.categoryMap[c] != []
    {
      this.userEncoder := userEncoder;
      this.itemEncoder := itemEncoder;
      this.userFactors := userFactors;
      this.itemFactors := itemFactors;
      this.train := train;
      this.config := config;
      this.recentItems := recentItems;
      this.metaRows := metaRows;
      this.meta := MetaIndex(metaRows);
      this.similarity := similarity;
      this.literalEval := literalEval;
      var groups := GroupKeys(metaRows);
      var m: map<string, seq<string>> := map[];
      for i := 0 to |groups|
        invariant forall c :: c in m <==> c in groups[..i]
        invariant forall c :: c in m ==> m[c] == Members(metaRows, c)
      {
        m := m[groups[i] := Members(metaRows, groups[i])];
        assert forall c :: c in groups[..i + 1] <==> c in groups[..i] || c == groups[i];
      }
      assert groups[..|groups|] == groups;
      assert m == CategoryIndex(metaRows);
      this.categoryMap := m;
      forall c ensures (c in m <==> exists i :: 0 <= i < |metaRows| && metaRows[i].mainCat == Some(c))
                    && (c in m ==> m[c] != [])
      {
        CategoryIndexGroups(metaRows, c);
      }
    }

    // ------------------------------------------------------------ product details

    /**
     * `get_product_details`: one record per code the store holds, in the order asked for,
     * with the image field cleaned.
     */
    method GetProductDetails(db: map<string, Product>, asins: seq<string>) returns (r: seq<ProductView>)
      ensures r == Resolve(db, asins, literalEval)
    {
      var found: seq<ProductView> := [];
      for i := 0 to |asins|
        invariant found == Found(db, asins[..i])
      {
        assert asins[..i + 1][..i] == asins[..i];
        var a := asins[i];
        if a in db {
          found := found + [ToView(db[a])];
        }
      }
      assert asins[..|asins|] == asins;
      ghost var f := found;
      for j := 0 to |found|
        invariant |found| == |f|
        invariant forall t :: 0 <= t < j ==> found[t] == WithImage(f[t], literalEval)
        invariant forall t :: j <= t < |found| ==> found[t] == f[t]
      {
        found := found[j := WithImage(found[j], literalEval)];
      }
      r := found;
    }

    // ------------------------------------------------------------ cold start

    /** The cold-start reply: the popularity selection, resolved; an undecodable popularity index escapes. */
    function ColdStartReply(k: nat, db: map<string, Product>): (r: Result<Reply, Fault>)
      reads this
      ensures r.Failure? <==>
                (recentItems.RankedIndices? && DecodeAll(itemEncoder, recentItems.idx[..Min(|recentItems.idx|, Window)]).None?)
      ensures r.Failure? ==> r.error == UnknownItemIndex
      ensures r.Success? ==> && r.value.source == FromPopularity
                             && |r.value.codes| <= k
                             && (forall a :: a in r.value.codes ==> a in meta)
                             && r.value.products == Resolve(db, r.value.codes, literalEval)
                             && |r.value.products| <= |r.value.codes|
    {
      match ColdStartCodes(recentItems, itemEncoder, meta, k)
      case Failure(e) => Failure(e)
      case Success(codes) => Success(Reply(FromPopularity, codes, Resolve(db, codes, literalEval)))
    }

    /** `get_cold_start_items`. */
    method GetColdStartItems(k: nat, db: map<string, Product>) returns (r: Result<Reply, Fault>)
      ensures r == ColdStartReply(k, db)
    {
      match ColdStartCodes(recentItems, itemEncoder, meta, k)
      case Failure(e) =>
        r := Failure(e);
      case Success(codes) =>
        var products := GetProductDetails(db, codes);
        r := Success(Reply(FromPopularity, codes, products));
    }

    // ------------------------------------------------------------ category fallback

    /** The loop collecting the inputs' usable categories, in input order. */
    method InputCategories(asins: seq<string>) returns (cats: seq<string>)
      ensures cats == Categories(meta, asins)
    {
      cats := [];
      for i := 0 to |asins|
        invariant cats == Categories(meta, asins[..i])
      {
        assert asins[..i + 1][..i] == asins[..i];
        var a := asins[i];
        if a in meta && meta[a].Some? && meta[a].value != "" {
          cats := cats + [meta[a].value];
        }
      }
      assert asins[..|asins|] == asins;
    }

    /** The category fallback's reply; it hands over to cold start where the pick does. */
    function CategoryReply(asins: seq<string>, k: nat, db: map<string, Product>, draws: seq<nat>): (r: Result<Reply, Fault>)
      reads this
      ensures r.Failure? ==> r == ColdStartReply(k, db)
      ensures r.Success? ==> r.value.source == FromCategory || r.value.source == FromPopularity
      ensures r.Success? ==> |r.value.codes| <= k && |r.value.products| <= |r.value.codes|
      ensures r.Success? ==> r.value.products == Resolve(db, r.value.codes, literalEval)
      ensures r.Success? && r.value.source == FromCategory ==> forall a :: a in r.value.codes ==> a !in asins
    {
      match CategoryPick(meta, categoryMap, asins, k, draws)
      case None => ColdStartReply(k, db)
      case Some(codes) => Success(Reply(FromCategory, codes, Resolve(db, codes, literalEval)))
    }

    /** `recommend_by_category`, with the random draws as a parameter. */
    method RecommendByCategory(asins: seq<string>, k: nat, db: map<string, Product>, draws: seq<nat>)
      returns (r: Result<Reply, Fault>)
      ensures r == CategoryReply(asins, k, db, draws)
    {
      var cats := InputCategories(asins);
      match PickFrom(cats, categoryMap, asins, k, draws) {
        case None =>
          r := GetColdStartItems(k, db);
        case Some(sampled) =>
          var products := GetProductDetails(db, sampled);
          r := Success(Reply(FromCategory, sampled, products));
      }
    }

    /** Under the start-up invariant, a category reply repeats no item code. */
    lemma CategoryReplyDistinct(asins: seq<string>, k: nat, db: map<string, Product>, draws: seq<nat>)
      requires Valid()
      ensures var r := CategoryReply(asins, k, db, draws);
              r.Success? && r.value.source == FromCategory ==> Distinct(r.value.codes)
    {
      CategoryPickSound(metaRows, asins, k, draws);
    }

    // ------------------------------------------------------------ session history

    /** The loop translating the session's known codes to item indices, in session order. */
    method ValidIndices(asins: seq<string>) returns (idx: seq<nat>)
      ensures idx == KnownIndices(itemEncoder, asins)
    {
      idx := [];
      for i := 0 to |asins|
        invariant idx == KnownIndices(itemEncoder, asins[..i])
      {
        assert asins[..i + 1][..i] == asins[..i];
        match Encode(itemEncoder, asins[i]) {
          case None =>
          case Some(j) => idx := idx + [j];
        }
      }
      assert asins[..|asins|] == asins;
    }

    /** Similarity of every item to the mean factor row of the session's items. */
    function HistoryScores(valid: seq<nat>): (r: seq<Score>)
      requires Rectangular(itemFactors) && |valid| > 0
      requires forall t :: 0 <= t < |valid| ==> valid[t] < |itemFactors.rows|
      reads this
      ensures |r| == |itemFactors.rows|
      ensures forall i :: 0 <= i < |r| ==> r[i].Finite?
    {
      var profile := MeanRow(itemFactors, valid);
      seq(|itemFactors.rows|, i requires 0 <= i < |itemFactors.rows| => Finite(similarity(itemFactors.rows[i], profile)))
    }

    /**
     * The ranked part of the history path: the top k of the similarity scores with the
     * session's items masked, resolved; or the decoding error when a ranked index has no
     * item code.
     */
    ghost predicate HistoryRanked(valid: seq<nat>, k: nat, db: map<string, Product>, r: Result<Reply, Fault>)
      requires Shaped() && valid != [] && AllBelow(valid, |itemFactors.rows|)
      reads this
    {
      var scores := Masked(HistoryScores(valid), valid);
      || (r.Success? && RankedFrom(itemEncoder, scores, k, db, literalEval, FromHistory, r.value))
      || (r == Failure(UnknownItemIndex) && exists idx: seq<nat> :: IsTopK(scores, k, idx) && DecodeAll(itemEncoder, idx).None?)
    }

    /**
     * What `recommend_from_history` returns. No known session item: the category fallback.
     * A known item outside the factor matrix: the indexing error escapes. Otherwise the
     * ranked part.
     */
    ghost predicate HistoryOutcome(asins: seq<string>, k: nat, db: map<string, Product>, draws: seq<nat>,
                                   r: Result<Reply, Fault>)
      requires Valid()
      reads this
    {
      var valid := KnownIndices(itemEncoder, asins);
      if valid == [] then r == CategoryReply(asins, k, db, draws)
      else if !AllBelow(valid, |itemFactors.rows|) then r == Failure(FactorRowMissing)
      else HistoryRanked(valid, k, db, r)
    }

    /** `recommend_from_history`, with the random draws of a category fallback as a parameter. */
    method RecommendFromHistory(asins: seq<string>, k: nat, db: map<string, Product>, draws: seq<nat>)
      returns (r: Result<Reply, Fault>)
      requires Valid()
      ensures HistoryOutcome(asins, k, db, draws, r)
    {
      var valid := ValidIndices(asins);
      if valid == [] {
        r := RecommendByCategory(asins, k, db, draws);
        return;
      }
      if exists t :: 0 <= t < |valid| && valid[t] >= |itemFactors.rows| {
        r := Failure(FactorRowMissing);
        return;
      }
      r := RankByHistory(valid, k, db);
    }

    /** The ranked part of `recommend_from_history`: score against the session profile, mask the session, rank, decode, resolve. */
    method RankByHistory(valid: seq<nat>, k: nat, db: map<string, Product>) returns (r: Result<Reply, Fault>)
      requires Shaped() && valid != [] && AllBelow(valid, |itemFactors.rows|)
      ensures HistoryRanked(valid, k, db, r)
    {
      var n := |itemFactors.rows|;
      var raw := HistoryScores(valid);
      var scores := new Score[n](i requires 0 <= i < n => raw[i]);
      assert scores[..] == raw;
      var ok := MaskIndices(scores, valid);
      ghost var expected := Masked(raw, valid);
      assert ok && scores[..] == expected;
      var top := TopK(scores[..], k);
      assert IsTopK(expected, k, top);
      match DecodeAll(itemEncoder, top) {
        case None =>
          r := Failure(UnknownItemIndex);
        case Some(codes) =>
          assert TopCodes(itemEncoder, expected, k, codes);
          var products := GetProductDetails(db, codes);
          r := Success(Reply(FromHistory, codes, products));
      }
    }

    /** The masked items of the history path are exactly the session's known items. */
    lemma HistoryMasks(asins: seq<string>, i: nat)
      requires Shaped() && KnownIndices(itemEncoder, asins) != []
      requires AllBelow(KnownIndices(itemEncoder, asins), |itemFactors.rows|)
      requires i < |itemFactors.rows|
      ensures var valid := KnownIndices(itemEncoder, asins);
              Masked(HistoryScores(valid), valid)[i].NegInf? <==>
                i < |itemEncoder.classes| && itemEncoder.classes[i] in asins
    {
      var valid := KnownIndices(itemEncoder, asins);
      MaskedAt(HistoryScores(valid), valid, i);
      if i in valid {
        var t :| 0 <= t < |valid| && valid[t] == i;
      }
      if i < |itemEncoder.classes| && itemEncoder.classes[i] in asins {
        EncodeDecode(itemEncoder, i);
      }
    }

    /**
     * A history reply recommends an item the session already holds only once every item
     * outside the session is in the reply; so never when at least `k` items are outside it.
     */
    lemma HistoryReplyAvoidsSession(asins: seq<string>, valid: seq<nat>, k: nat, codes: seq<string>, t: nat)
      requires Shaped() && valid == KnownIndices(itemEncoder, asins) && valid != []
      requires AllBelow(valid, |itemFactors.rows|)
      requires TopCodes(itemEncoder, Masked(HistoryScores(valid), valid), k, codes)
      requires t < |codes|
      ensures codes[t] in asins ==>
                forall x :: x in Unmasked(Masked(HistoryScores(valid), valid)) ==> x < |itemEncoder.classes| && itemEncoder.classes[x] in codes
      ensures |Unmasked(Masked(HistoryScores(valid), valid))| >= k ==> codes[t] !in asins
    {
      var scores := Masked(HistoryScores(valid), valid);
      RankedReplyAvoidsMasked(itemEncoder, scores, k, codes, t);
      var i := Encode(itemEncoder, codes[t]).value;
      assert itemEncoder.classes[i] == codes[t];
      HistoryMasks(asins, i);
      assert scores[i].NegInf? <==> codes[t] in asins;
    }

    // ------------------------------------------------------------ matrix factorisation

    /** The guarded block raises nothing before ranking: rows exist, widths agree, every masked index is in range. */
    ghost predicate Scorable(u: nat, session: seq<string>)
      requires u < |train|
      reads this
    {
      var n := |itemFactors.rows|;
      && u < |userFactors.rows|
      && userFactors.width == itemFactors.width
      && AllBelow(train[u], n)
      && AllBelow(KnownIndices(itemEncoder, session), n)
    }

    /** Each item's dot product with the user's factor row, with the user's ledger row and known session items masked. */
    function FactorScores(u: nat, session: seq<string>): (r: seq<Score>)
      requires Shaped() && u < |train| && u < |userFactors.rows| && userFactors.width == itemFactors.width
      reads this
      ensures |r| == |itemFactors.rows|
    {
      Masked(Masked(DotScores(itemFactors, userFactors.rows[u]), train[u]), KnownIndices(itemEncoder, session))
    }

    /**
     * The masked items of the factor path are exactly the user's ledger entries and the
     * known items of the session.
     */
    lemma FactorMasks(u: nat, session: seq<string>, i: nat)
      requires Shaped() && u < |train| && u < |userFactors.rows| && userFactors.width == itemFactors.width
      requires i < |itemFactors.rows|
      ensures FactorScores(u, session)[i].NegInf? <==>
                i in train[u] || (i < |itemEncoder.classes| && itemEncoder.classes[i] in session)
    {
      var raw := DotScores(itemFactors, userFactors.rows[u]);
      var known := KnownIndices(itemEncoder, session);
      MaskedAt(raw, train[u], i);
      MaskedAt(Masked(raw, train[u]), known, i);
      if i in known {
        var t :| 0 <= t < |known| && known[t] == i;
      }
      if i < |itemEncoder.classes| && itemEncoder.classes[i] in session {
        EncodeDecode(itemEncoder, i);
      }
    }

    /** The session loop of the factor path: mask every known session item, failing on one outside the array. */
    method MaskSession(a: array<Score>, session: seq<string>) returns (ok: bool)
      modifies a
      ensures ok <==> AllBelow(KnownIndices(itemEncoder, session), a.Length)
      ensures ok ==> a[..] == Masked(old(a[..]), KnownIndices(itemEncoder, session))
    {
      ghost var orig := a[..];
      for j := 0 to |session|
        invariant AllBelow(KnownIndices(itemEncoder, session[..j]), a.Length)
        invariant a[..] == Masked(orig, KnownIndices(itemEncoder, session[..j]))
      {
        var code := Encode(itemEncoder, session[j]);
        if code.Some? && code.value >= a.Length {
          KnownIndexOutside(itemEncoder, session, j, a.Length);
          return false;
        }
        MaskStep(orig, itemEncoder, session, j);
        if code.Some? {
          a[code.value] := NegInf;
        }
      }
      assert session[..|session|] == session;
      ok := true;
    }

    /**
     * The guarded block of `recommend`: score, mask, rank and decode. An exception anywhere
     * in it is caught, and the caller then serves cold start.
     */
    method ScoreForUser(u: nat, session: seq<string>, k: nat) returns (r: Scoring)
      requires Valid() && u < |train|
      ensures u >= |userFactors.rows| ==> r == Degraded(FactorRowMissing)
      ensures u < |userFactors.rows| && userFactors.width != itemFactors.width ==> r == Degraded(FactorShapeMismatch)
      ensures u < |userFactors.rows| && userFactors.width == itemFactors.width && !Scorable(u, session) ==>
                r == Degraded(FactorRowMissing)
      ensures Scorable(u, session) ==>
        var scores := FactorScores(u, session);
        || (r.Scored? && TopCodes(itemEncoder, scores, k, r.codes))
        || (r == Degraded(UnknownItemIndex) && exists idx: seq<nat> :: IsTopK(scores, k, idx) && DecodeAll(itemEncoder, idx).None?)
    {
      if u >= |userFactors.rows| {
        return Degraded(FactorRowMissing);
      }
      if userFactors.width != itemFactors.width {
        return Degraded(FactorShapeMismatch);
      }
      var raw := DotScores(itemFactors, userFactors.rows[u]);
      var scores := new Score[|raw|](i requires 0 <= i < |raw| => raw[i]);
      assert scores[..] == raw;
      var ok := MaskIndices(scores, train[u]);
      if !ok {
        return Degraded(FactorRowMissing);
      }
      ok := MaskSession(scores, session);
      if !ok {
        return Degraded(FactorRowMissing);
      }
      var top := TopK(scores[..], k);
      match DecodeAll(itemEncoder, top) {
        case None => r := Degraded(UnknownItemIndex);
        case Some(codes) => r := Scored(codes);
      }
    }

    /**
     * What the factor path returns for a known user: the top-k of the masked dot-product
     * scores, resolved; when the guarded block raises, exactly the cold-start reply.
     */
    ghost predicate FactorOutcome(u: nat, session: seq<string>, k: nat, db: map<string, Product>, r: Result<Reply, Fault>)
      requires Valid() && u < |train|
      reads this
    {
      if !Scorable(u, session) then r == ColdStartReply(k, db)
      else
        var scores := FactorScores(u, session);
        || (r.Success? && RankedFrom(itemEncoder, scores, k, db, literalEval, FromFactors, r.value))
        || (r == ColdStartReply(k, db) && exists idx: seq<nat> :: IsTopK(scores, k, idx) && DecodeAll(itemEncoder, idx).None?)
    }

    /**
     * A factor reply recommends an item the user has interacted with, or one in the
     * session, only once every other item is in the reply; so never when at least `k`
     * items are neither.
     */
    lemma FactorReplyAvoidsSeen(u: nat, session: seq<string>, k: nat, codes: seq<string>, t: nat)
      requires Shaped() && u < |train| && u < |userFactors.rows| && userFactors.width == itemFactors.width
      requires TopCodes(itemEncoder, FactorScores(u, session), k, codes)
      requires t < |codes|
      ensures Encode(itemEncoder, codes[t]).Some?
      ensures codes[t] in session || Encode(itemEncoder, codes[t]).value in train[u] ==>
                forall x :: x in Unmasked(FactorScores(u, session)) ==> x < |itemEncoder.classes| && itemEncoder.classes[x] in codes
      ensures |Unmasked(FactorScores(u, session))| >= k ==>
                codes[t] !in session && Encode(itemEncoder, codes[t]).value !in train[u]
    {
      var scores := FactorScores(u, session);
      RankedReplyAvoidsMasked(itemEncoder, scores, k, codes, t);
      var i := Encode(itemEncoder, codes[t]).value;
      FactorMasks(u, session, i);
    }

    // ------------------------------------------------------------ entry point

    /**
     * What `recommend` returns. A known user whose ledger row is missing: the indexing
     * error escapes. Otherwise the request follows `Route`.
     */
    ghost predicate RecommendOutcome(username: string, recent: Option<seq<string>>, k: nat,
                                     db: map<string, Product>, draws: seq<nat>, r: Result<Reply, Fault>)
      requires Valid()
      reads this
    {
      var session := if recent.Some? then recent.value else [];
      var user := Encode(userEncoder, username);
      if user.Some? && user.value >= |train| then r == Failure(LedgerRowMissing)
      else
        var nnz := if user.Some? then |train[user.value]| else 0;
        match Route(user, nnz, Threshold(), session)
        case SessionHistory => HistoryOutcome(session, k, db, draws, r)
        case ColdStart => r == ColdStartReply(k, db)
        case MatrixFactorisation => FactorOutcome(user.value, session, k, db, r)
    }

    /** `recommend`, with the random draws of a category fallback as a parameter. */
    method Recommend(username: string, recent: Option<seq<string>>, k: nat, db: map<string, Product>, draws: seq<nat>)
      returns (r: Result<Reply, Fault>)
      requires Valid()
      ensures RecommendOutcome(username, recent, k, db, draws, r)
    {
      var session := if recent.Some? then recent.value else [];
      var user := Encode(userEncoder, username);
      var live := false;
      var nnz := 0;
      if user.None? {
        live := true;
      } else {
        if user.value >= |train| {
          r := Failure(LedgerRowMissing);
          return;
        }
        nnz := |train[user.value]|;
        if nnz < Threshold() {
          live := true;
        }
      }
      if live && session != [] {
        r := RecommendFromHistory(session, k, db, draws);
        return;
      }
      if user.None? {
        r := GetColdStartItems(k, db);
        return;
      }
      var scoring := ScoreForUser(user.value, session, k);
      match scoring {
        case Degraded(_) =>
          r := GetColdStartItems(k, db);
        case Scored(codes) =>
          var products := GetProductDetails(db, codes);
          r := Success(Reply(FromFactors, codes, products));
      }
    }

    /**
     * Every reply holds at most `k` records and at most `k` item codes; a reply chosen by
     * factorisation, session history or category repeats no code. Cold start keeps any repeat
     * of the popularity list (`ColdStartRepeats`).
     */
    lemma RecommendReplyBound(username: string, recent: Option<seq<string>>, k: nat,
                              db: map<string, Product>, draws: seq<nat>, r: Result<Reply, Fault>)
      requires Valid() && RecommendOutcome(username, recent, k, db, draws, r) && r.Success?
      ensures |r.value.codes| <= k && |r.value.products| <= k
      ensures r.value.products == Resolve(db, r.value.codes, literalEval)
      ensures r.value.source != FromPopularity ==> Distinct(r.value.codes)
    {
      var session := if recent.Some? then recent.value else [];
      var user := Encode(userEncoder, username);
      var nnz := if user.Some? then |train[user.value]| else 0;
      match Route(user, nnz, Threshold(), session)
      case ColdStart =>
      case SessionHistory =>
        var valid := KnownIndices(itemEncoder, session);
        if valid == [] {
          CategoryReplyDistinct(session, k, db, draws);
        } else {
          RankedBound(itemEncoder, Masked(HistoryScores(valid), valid), k, db, literalEval, FromHistory, r.value);
        }
      case MatrixFactorisation =>
        if Scorable(user.value, session) && r != ColdStartReply(k, db) {
          RankedBound(itemEncoder, FactorScores(user.value, session), k, db, literalEval, FromFactors, r.value);
        }
    }

    /**
     * In a store keyed by item code, as the source builds it, the records of a reply chosen
     * by factorisation, session history or category repeat no item either.
     */
    lemma RecommendRecordsDistinct(username: string, recent: Option<seq<string>>, k: nat,
                                   db: map<string, Product>, draws: seq<nat>, r: Result<Reply, Fault>)
      requires Valid() && Keyed(db) && RecommendOutcome(username, recent, k, db, draws, r) && r.Success?
      ensures r.value.source != FromPopularity ==> Distinct(Codes(r.value.products))
    {
      RecommendReplyBound(username, recent, k, db, draws, r);
      if r.value.source != FromPopularity {
        ResolveDistinct(db, r.value.codes, literalEval);
      }
    }

    /**
     * Artefacts that agree with each other: every known user has a ledger row and a factor
     * row, the factor matrices share their width, there is one item factor row per item
     * code, the ledger and the popularity list refer only to existing items.
     */
    ghost predicate Consistent()
      reads this
    {
      && Valid()
      && |userEncoder.classes| <= |train|
      && |userEncoder.classes| <= |userFactors.rows|
      && userFactors.width == itemFactors.width
      && |itemFactors.rows| == |itemEncoder.classes|
      && (forall u :: 0 <= u < |train| ==> AllBelow(train[u], |itemFactors.rows|))
      && (recentItems.RankedIndices? ==>
            forall t :: 0 <= t < |recentItems.idx| ==> 0 <= recentItems.idx[t] < |itemEncoder.classes|)
    }

    /** With consistent artefacts cold start always answers. */
    lemma ColdStartSucceeds(k: nat, db: map<string, Product>)
      requires Consistent()
      ensures ColdStartReply(k, db).Success?
    {
      ColdStartShape(recentItems, itemEncoder, meta, k);
      if recentItems.RankedIndices? {
        var w := recentItems.idx[..Min(|recentItems.idx|, Window)];
        assert forall t :: 0 <= t < |w| ==> w[t] == recentItems.idx[t];
      }
    }

    /** A top k of scores for at most as many items as the encoder knows always decodes. */
    lemma TopKDecodes(scores: seq<Score>, k: nat)
      requires |scores| <= |itemEncoder.classes|
      ensures forall idx: seq<nat> :: IsTopK(scores, k, idx) ==> DecodeAll(itemEncoder, idx).Some?
    {
      forall idx: seq<nat> | IsTopK(scores, k, idx) ensures DecodeAll(itemEncoder, idx).Some? {
        assert forall t :: 0 <= t < |idx| ==> idx[t] < |scores|;
      }
    }

    /** With consistent artefacts the history path never fails. */
    lemma HistoryNeverFails(asins: seq<string>, k: nat, db: map<string, Product>, draws: seq<nat>, r: Result<Reply, Fault>)
      requires Consistent() && HistoryOutcome(asins, k, db, draws, r)
      ensures r.Success?
    {
      ColdStartSucceeds(k, db);
      var valid := KnownIndices(itemEncoder, asins);
      if valid != [] {
        assert AllBelow(valid, |itemFactors.rows|);
        TopKDecodes(Masked(HistoryScores(valid), valid), k);
      }
    }

    /** With consistent artefacts the factor path answers every known user by factorisation. */
    lemma FactorNeverFails(u: nat, session: seq<string>, k: nat, db: map<string, Product>, r: Result<Reply, Fault>)
      requires Consistent() && u < |userEncoder.classes| && FactorOutcome(u, session, k, db, r)
      ensures r.Success? && r.value.source == FromFactors
    {
      assert Scorable(u, session);
      TopKDecodes(FactorScores(u, session), k);
    }

    /**
     * With consistent artefacts no request fails, and a request routed to matrix
     * factorisation is answered by it rather than degrading to cold start.
     */
    lemma ConsistentNeverFails(username: string, recent: Option<seq<string>>, k: nat,
                               db: map<string, Product>, draws: seq<nat>, r: Result<Reply, Fault>)
      requires Consistent() && RecommendOutcome(username, recent, k, db, draws, r)
      ensures r.Success?
      ensures var session := if recent.Some? then recent.value else [];
              var user := Encode(userEncoder, username);
              user.Some? && Route(user, |train[user.value]|, Threshold(), session) == MatrixFactorisation ==>
                r.value.source == FromFactors
    {
      var session := if recent.Some? then recent.value else [];
      var user := Encode(userEncoder, username);
      var nnz := if user.Some? then |train[user.value]| else 0;
      match Route(user, nnz, Threshold(), session)
      case ColdStart =>
        ColdStartSucceeds(k, db);
      case SessionHistory =>
        HistoryNeverFails(session, k, db, draws, r);
      case MatrixFactorisation =>
        FactorNeverFails(user.value, session, k, db, r);
    }
  }
}

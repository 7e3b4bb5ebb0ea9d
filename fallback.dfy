/**
 * The fallback chain: the category fallback (majority category of the inputs, its other
 * members, a random sample of them) and the cold-start list (a bounded prefix of the
 * popularity list, filtered to items with metadata, truncated to k).
 */
module Fallback {
  import opened Basics
  import opened Codec
  import opened Catalog

  // ---------------------------------------------------------------- category fallback

  /** A category value counts when it is present and non-empty (`if c:`). */
  predicate Usable(meta: map<string, Option<string>>, a: string)
  {
    a in meta && meta[a].Some? && meta[a].value != ""
  }

  /** The categories of the inputs found in the metadata, in input order, repeats kept. */
  function Categories(meta: map<string, Option<string>>, asins: seq<string>): (r: seq<string>)
    ensures |r| <= |asins|
    ensures forall c :: c in r <==> exists a :: a in asins && Usable(meta, a) && meta[a].value == c
  {
    if asins == [] then []
    else
      var front, last := asins[..|asins| - 1], asins[|asins| - 1];
      assert forall a :: a in asins <==> a in front || a == last;
      Categories(meta, front) + (if Usable(meta, last) then [meta[last].value] else [])
  }

  /** How often `c` occurs in `cats`, as `Counter(cats)[c]`. */
  function Count(cats: seq<string>, c: string): (r: nat)
    ensures r > 0 <==> c in cats
    ensures r <= |cats|
  {
    multiset(cats)[c]
  }

  /** The candidate of `s` with the highest count in `cats`, the earlier one on a tie. */
  function BestIn(s: seq<string>, cats: seq<string>): (r: string)
    requires s != []
    ensures r in s
    ensures forall x :: x in s ==> Count(cats, x) <= Count(cats, r)
  {
    if |s| == 1 then s[0]
    else
      var b := BestIn(s[1..], cats);
      assert forall x :: x in s ==> x == s[0] || x in s[1..];
      if Count(cats, s[0]) >= Count(cats, b) then s[0] else b
  }

  /** No element of `s` before the chosen one has as high a count. */
  lemma {:induction false} BestInEarliest(s: seq<string>, cats: seq<string>, i: nat)
    requires s != [] && i < |s| && Count(cats, s[i]) == Count(cats, BestIn(s, cats))
    ensures BestIn(s, cats) in s[..i + 1]
  {
    if |s| > 1 {
      var b := BestIn(s[1..], cats);
      if Count(cats, s[0]) >= Count(cats, b) {
        assert s[..i + 1][0] == s[0];
      } else {
        assert s[i] == s[1..][i - 1];
        BestInEarliest(s[1..], cats, i - 1);
        assert s[1..][..i] == s[1..i + 1];
        var t :| 0 <= t < i && s[1..i + 1][t] == b;
        assert s[..i + 1][t + 1] == b;
      }
    }
  }

  /**
   * `Counter(cats).most_common(1)[0][0]`: a category of highest count; on a tie, the one
   * that occurs first in `cats` (the counter keeps first-occurrence order and `max` keeps
   * the first maximum).
   */
  function MostCommon(cats: seq<string>): (r: string)
    requires cats != []
    ensures r in cats
    ensures forall c :: c in cats ==> Count(cats, c) <= Count(cats, r)
    ensures forall i :: 0 <= i < |cats| && Count(cats, cats[i]) == Count(cats, r) ==> r in cats[..i + 1]
  {
    var r := BestIn(cats, cats);
    forall i | 0 <= i < |cats| && Count(cats, cats[i]) == Count(cats, r) ensures r in cats[..i + 1] {
      BestInEarliest(cats, cats, i);
    }
    r
  }

  /** `[c for c in category_map.get(target, []) if c not in asins]` */
  function Candidates(categoryMap: map<string, seq<string>>, target: string, asins: seq<string>): (r: seq<string>)
    ensures forall c :: c in r <==> target in categoryMap && c in categoryMap[target] && c !in asins
    ensures target in categoryMap ==> |r| <= |categoryMap[target]|
    ensures target !in categoryMap ==> r == []
  {
    Filter(if target in categoryMap then categoryMap[target] else [], c => c !in asins)
  }

  /** `pool` without position `j`: the last element moves into the gap. */
  function SwapOut(pool: seq<string>, j: nat): (r: seq<string>)
    requires j < |pool|
    ensures |r| == |pool| - 1
  {
    pool[j := pool[|pool| - 1]][..|pool| - 1]
  }

  lemma SwapOutMembers(pool: seq<string>, j: nat)
    requires j < |pool|
    ensures forall x :: x in SwapOut(pool, j) ==> x in pool
    ensures Distinct(pool) ==> Distinct(SwapOut(pool, j)) && pool[j] !in SwapOut(pool, j)
  {
    var r := SwapOut(pool, j);
    assert forall t :: 0 <= t < |r| ==> r[t] == (if t == j then pool[|pool| - 1] else pool[t]);
  }

  /**
   * `random.sample(pool, n)`: at step i the draw picks one of the remaining elements
   * (`randbelow(n - i)`) and the last remaining element takes its place. The draws are the
   * injected random source; a missing draw counts as 0.
   */
  function Sample(pool: seq<string>, n: nat, draws: seq<nat>): (r: seq<string>)
    requires n <= |pool|
    ensures |r| == n
    ensures forall x :: x in r ==> x in pool
    ensures Distinct(pool) ==> Distinct(r)
    decreases n
  {
    if n == 0 then []
    else
      var j := (if draws == [] then 0 else draws[0]) % |pool|;
      var rest := SwapOut(pool, j);
      var tail := Sample(rest, n - 1, if draws == [] then [] else draws[1..]);
      SwapOutMembers(pool, j);
      assert forall x :: x in [pool[j]] + tail ==> x == pool[j] || x in tail;
      assert Distinct(pool) ==> pool[j] !in tail;
      assert forall t :: 0 < t < |tail| + 1 ==> ([pool[j]] + tail)[t] == tail[t - 1];
      [pool[j]] + tail
  }

  /** The candidates of the collected categories: the majority category's members minus the inputs. */
  function Pool(categoryMap: map<string, seq<string>>, cats: seq<string>, asins: seq<string>): seq<string>
    requires cats != []
  {
    Candidates(categoryMap, MostCommon(cats), asins)
  }

  /**
   * The category fallback's choice of items from the collected categories, or `None` where
   * it hands over to cold start: when there is no category, or when the majority category
   * has no member besides the inputs.
   */
  function PickFrom(cats: seq<string>, categoryMap: map<string, seq<string>>, asins: seq<string>,
                    k: nat, draws: seq<nat>): (r: Option<seq<string>>)
    ensures r.None? <==> cats == [] || Pool(categoryMap, cats, asins) == []
    ensures r.Some? ==>
      var pool := Pool(categoryMap, cats, asins);
      && |r.value| == Min(k, |pool|) && |r.value| <= k
      && (forall x :: x in r.value ==> x in pool)
      && (Distinct(pool) ==> Distinct(r.value))
  {
    if cats == [] then None
    else
      var pool := Pool(categoryMap, cats, asins);
      if pool == [] then None
      else
        var n := if k <= |pool| then k else |pool|;
        Some(Sample(pool, n, draws))
  }

  /** The category fallback on the inputs, collecting their categories first. */
  function CategoryPick(meta: map<string, Option<string>>, categoryMap: map<string, seq<string>>,
                        asins: seq<string>, k: nat, draws: seq<nat>): (r: Option<seq<string>>)
    ensures (forall a :: a in asins ==> !Usable(meta, a)) ==> r.None?
    ensures r.Some? ==> |r.value| <= k && forall x :: x in r.value ==> x !in asins
  {
    var cats := Categories(meta, asins);
    assert cats != [] ==> exists a :: a in asins && Usable(meta, a) by {
      if cats != [] {
        assert cats[0] in cats;
      }
    }
    PickFrom(cats, categoryMap, asins, k, draws)
  }

  /**
   * Over the metadata table and the category map built from it: the fallback hands over to
   * cold start exactly when no input has a usable category or the majority category has no
   * other member; otherwise it returns `min(k, |pool|)` distinct items, each of the majority
   * category and none an input, where the pool is that category's members minus the inputs,
   * in table order.
   */
  lemma CategoryPickSound(rows: seq<MetaRow>, asins: seq<string>, k: nat, draws: seq<nat>)
    requires UniqueAsins(rows)
    ensures
      var meta, cmap := MetaIndex(rows), CategoryIndex(rows);
      var cats := Categories(meta, asins);
      var pick := CategoryPick(meta, cmap, asins, k, draws);
      && (pick.None? <==> cats == [] || Candidates(cmap, MostCommon(cats), asins) == [])
      && (cats != [] ==> Candidates(cmap, MostCommon(cats), asins) == Filter(Members(rows, MostCommon(cats)), c => c !in asins))
      && (pick.Some? ==>
            && |pick.value| == Min(k, |Candidates(cmap, MostCommon(cats), asins)|)
            && Distinct(pick.value)
            && forall x :: x in pick.value ==>
                 x !in asins && x in meta && meta[x] == Some(MostCommon(cats)))
  {
    var meta, cmap := MetaIndex(rows), CategoryIndex(rows);
    var cats := Categories(meta, asins);
    if cats != [] {
      var target := MostCommon(cats);
      PoolFacts(rows, asins, target);
      var pool := Candidates(cmap, target, asins);
      if pool != [] {
        SampleFromPool(meta, pool, asins, target, k, draws);
        assert CategoryPick(meta, cmap, asins, k, draws) == Some(Sample(pool, if k <= |pool| then k else |pool|, draws));
      }
    }
  }

  /** A sample from a pool of the target category that holds no input inherits both facts. */
  lemma SampleFromPool(meta: map<string, Option<string>>, pool: seq<string>, asins: seq<string>,
                       target: string, k: nat, draws: seq<nat>)
    requires Distinct(pool)
    requires forall x :: x in pool ==> x !in asins && x in meta && meta[x] == Some(target)
    ensures var ids := Sample(pool, if k <= |pool| then k else |pool|, draws);
      && |ids| == Min(k, |pool|) && Distinct(ids)
      && forall x :: x in ids ==> x !in asins && x in meta && meta[x] == Some(target)
  {
  }

  /** The majority category is one the table carries, so the map lists its members. */
  lemma TargetIsGroup(rows: seq<MetaRow>, asins: seq<string>)
    requires UniqueAsins(rows) && Categories(MetaIndex(rows), asins) != []
    ensures
      var target := MostCommon(Categories(MetaIndex(rows), asins));
      target in CategoryIndex(rows) && CategoryIndex(rows)[target] == Members(rows, target)
  {
    var meta := MetaIndex(rows);
    var target := MostCommon(Categories(meta, asins));
    var a :| a in asins && Usable(meta, a) && meta[a].value == target;
    var i :| 0 <= i < |rows| && rows[i].asin == a;
    MetaIndexAt(rows, i);
    CategoryIndexGroups(rows, target);
  }

  /** The pool is duplicate-free, of the target category, and holds no input. */
  lemma PoolFacts(rows: seq<MetaRow>, asins: seq<string>, target: string)
    requires UniqueAsins(rows) && Categories(MetaIndex(rows), asins) != []
    requires target == MostCommon(Categories(MetaIndex(rows), asins))
    ensures Candidates(CategoryIndex(rows), target, asins) == Filter(Members(rows, target), c => c !in asins)
    ensures Distinct(Candidates(CategoryIndex(rows), target, asins))
    ensures forall x :: x in Candidates(CategoryIndex(rows), target, asins) ==>
      x !in asins && x in MetaIndex(rows) && MetaIndex(rows)[x] == Some(target)
  {
    TargetIsGroup(rows, asins);
    MembersDistinct(rows, target);
    FilterDistinct(Members(rows, target), c => c !in asins);
    forall x | x in Filter(Members(rows, target), c => c !in asins)
      ensures x !in asins && x in MetaIndex(rows) && MetaIndex(rows)[x] == Some(target)
    {
      MembersInCategory(rows, target, x);
    }
  }

  // ---------------------------------------------------------------- cold start

  /**
   * The `recent_items` artefact: a list of item indices, a list of item codes, or (any
   * other object) not a list. A list is told by its first element's type.
   */
  datatype Popularity = RankedIndices(idx: seq<int>) | RankedCodes(codes: seq<string>) | NotAList

  /** How far into the popularity list cold start looks. */
  const Window := 300

  /** The bounded prefix of the popularity list, as item codes. */
  function WindowCodes(pop: Popularity, items: Encoder): (r: Result<seq<string>, Fault>)
    ensures r.Failure? <==> pop.RankedIndices? && DecodeAll(items, pop.idx[..Min(|pop.idx|, Window)]).None?
    ensures r.Failure? ==> r.error == UnknownItemIndex
    ensures pop.NotAList? ==> r == Success([])
    ensures r.Success? ==> |r.value| <= Window
    ensures pop.RankedCodes? ==> r.value == pop.codes[..Min(|pop.codes|, Window)]
    ensures pop.RankedIndices? && r.Success? ==>
      |r.value| == Min(|pop.idx|, Window) &&
      forall t :: 0 <= t < |r.value| ==> r.value[t] == items.classes[pop.idx[t]]
  {
    match pop
    case NotAList => Success([])
    case RankedCodes(s) => Success(s[..Min(|s|, Window)])
    case RankedIndices(s) =>
      match DecodeAll(items, s[..Min(|s|, Window)])
      case None => Failure(UnknownItemIndex)
      case Some(codes) => Success(codes)
  }

  /** `get_cold_start_items(k)` before metadata resolution. */
  function ColdStartCodes(pop: Popularity, items: Encoder, meta: map<string, Option<string>>, k: nat): (r: Result<seq<string>, Fault>)
    ensures r.Failure? <==> WindowCodes(pop, items).Failure?
    ensures r.Failure? ==> r.error == UnknownItemIndex
    ensures r.Success? ==> |r.value| <= k && |r.value| <= Window
    ensures r.Success? ==> forall a :: a in r.value ==> a in meta && a in WindowCodes(pop, items).value
  {
    match WindowCodes(pop, items)
    case Failure(e) => Failure(e)
    case Success(w) =>
      var valid := Filter(w, a => a in meta);
      assert forall a :: a in valid[..Min(k, |valid|)] ==> a in valid;
      Success(valid[..Min(k, |valid|)])
  }

  /**
   * Cold start returns an order-preserving selection from the popularity list: from its
   * first 300 entries, exactly the first `k` of those with metadata (all of them when fewer).
   * It fails only when the list holds an index the item encoder cannot decode; a non-list
   * artefact yields nothing.
   */
  lemma {:induction false} ColdStartShape(pop: Popularity, items: Encoder, meta: map<string, Option<string>>, k: nat)
    ensures ColdStartCodes(pop, items, meta, k).Failure? <==>
      pop.RankedIndices? && DecodeAll(items, pop.idx[..Min(|pop.idx|, Window)]).None?
    ensures pop.NotAList? ==> ColdStartCodes(pop, items, meta, k) == Success([])
    ensures ColdStartCodes(pop, items, meta, k).Success? ==>
      var w := WindowCodes(pop, items).value;
      var r := ColdStartCodes(pop, items, meta, k).value;
      && |w| <= Window
      && IsSubseq(r, w)
      && (forall a :: a in r ==> a in meta)
      && |r| == Min(k, |Filter(w, a => a in meta)|)
      && r == Filter(w, a => a in meta)[..|r|]
  {
    if ColdStartCodes(pop, items, meta, k).Success? {
      var w := WindowCodes(pop, items).value;
      var valid := Filter(w, a => a in meta);
      FilterIsSubseq(w, a => a in meta);
      PrefixIsSubseq(valid, Min(k, |valid|), w);
      assert forall a :: a in valid[..Min(k, |valid|)] ==> a in valid;
    }
  }

  /**
   * Cold start repeats an item only where the popularity window repeats it: a duplicate-free
   * list of codes, or of indices under a fitted encoder, gives a duplicate-free selection.
   */
  lemma ColdStartDistinct(pop: Popularity, items: Encoder, meta: map<string, Option<string>>, k: nat)
    requires Fitted(items) && ColdStartCodes(pop, items, meta, k).Success?
    requires pop.RankedIndices? ==> Distinct(pop.idx)
    requires pop.RankedCodes? ==> Distinct(pop.codes)
    ensures Distinct(ColdStartCodes(pop, items, meta, k).value)
  {
    var w := WindowCodes(pop, items).value;
    match pop {
      case NotAList =>
      case RankedCodes(s) =>
        assert w == s[..Min(|s|, Window)];
      case RankedIndices(s) =>
        var p := s[..Min(|s|, Window)];
        assert Distinct(p);
        DecodeAllDistinct(items, p);
    }
    FilterDistinct(w, a => a in meta);
  }

  /** Repeats in the popularity list survive into the cold-start selection. */
  lemma ColdStartRepeats()
    ensures ColdStartCodes(RankedCodes(["a", "a"]), Encoder([]), map["a" := None], 2) == Success(["a", "a"])
  {
    var meta: map<string, Option<string>> := map["a" := None];
    var w := WindowCodes(RankedCodes(["a", "a"]), Encoder([])).value;
    assert w == ["a", "a"];
    assert Filter(w, a => a in meta) == ["a", "a"];
  }
}

/**
 * The item catalogue: the metadata table (item code and main category), the category map
 * built from it when the engine starts, and the metadata resolver that turns item codes into
 * product records taken from the product store.
 */
module Catalog {
  import opened Basics

  /** One row of the metadata table: an item code and its `main_cat`, `None` when missing. */
  datatype MetaRow = MetaRow(asin: string, mainCat: Option<string>)

  /** The metadata table is indexed by item code, one row per code. */
  predicate UniqueAsins(rows: seq<MetaRow>)
  {
    forall i, j :: 0 <= i < j < |rows| ==> rows[i].asin != rows[j].asin
  }

  /** The table indexed by item code: `asin in meta.index` and `meta.loc[asin, 'main_cat']`. */
  function MetaIndex(rows: seq<MetaRow>): (m: map<string, Option<string>>)
    ensures forall a :: a in m <==> exists i :: 0 <= i < |rows| && rows[i].asin == a
  {
    if rows == [] then map[]
    else
      var front, last := rows[..|rows| - 1], rows[|rows| - 1];
      var m := MetaIndex(front);
      assert forall i :: 0 <= i < |front| ==> front[i] == rows[i];
      m[last.asin := last.mainCat]
  }

  /** Looking a row's code up gives that row's category. */
  lemma {:induction false} MetaIndexAt(rows: seq<MetaRow>, i: nat)
    requires UniqueAsins(rows) && i < |rows|
    ensures MetaIndex(rows)[rows[i].asin] == rows[i].mainCat
  {
    var front := rows[..|rows| - 1];
    if i < |rows| - 1 {
      assert UniqueAsins(front);
      assert front[i] == rows[i];
      MetaIndexAt(front, i);
    }
  }

  /** The categories some row carries. */
  function Carried(rows: seq<MetaRow>): set<string>
  {
    set i | 0 <= i < |rows| && rows[i].mainCat.Some? :: rows[i].mainCat.value
  }

  /** The codes of the rows in category `c`, in table order. */
  function Members(rows: seq<MetaRow>, c: string): seq<string>
  {
    if rows == [] then []
    else (if rows[0].mainCat == Some(c) then [rows[0].asin] else []) + Members(rows[1..], c)
  }

  /**
   * The category map: `meta.groupby('main_cat')` forms one group per category carried
   * (rows without a category form none), and each group lists its codes in table order.
   */
  function CategoryIndex(rows: seq<MetaRow>): map<string, seq<string>>
  {
    map c | c in Carried(rows) :: Members(rows, c)
  }

  /** The group labels in first-occurrence order: the order `groupby` is iterated in is immaterial here. */
  function GroupKeys(rows: seq<MetaRow>): (r: seq<string>)
    ensures forall c :: c in r <==> c in Carried(rows)
  {
    if rows == [] then []
    else
      var front, last := rows[..|rows| - 1], rows[|rows| - 1];
      var keys := GroupKeys(front);
      assert forall i :: 0 <= i < |front| ==> front[i] == rows[i];
      assert forall c :: c in Carried(rows) <==> c in Carried(front) || last.mainCat == Some(c);
      keys + (if last.mainCat.Some? && last.mainCat.value !in keys then [last.mainCat.value] else [])
  }

  lemma {:induction false} MemberOfRow(rows: seq<MetaRow>, i: nat)
    requires i < |rows| && rows[i].mainCat.Some?
    ensures rows[i].asin in Members(rows, rows[i].mainCat.value)
  {
    if i > 0 {
      assert rows[1..][i - 1] == rows[i];
      MemberOfRow(rows[1..], i - 1);
    }
  }

  /**
   * The category map has a key exactly for each category some row carries, the key's value
   * is that category's members in table order, and no key maps to an empty list.
   */
  lemma CategoryIndexGroups(rows: seq<MetaRow>, c: string)
    ensures c in CategoryIndex(rows) <==> exists i :: 0 <= i < |rows| && rows[i].mainCat == Some(c)
    ensures c in CategoryIndex(rows) ==> CategoryIndex(rows)[c] == Members(rows, c)
    ensures c in CategoryIndex(rows) ==> |CategoryIndex(rows)[c]| > 0
  {
    if c in CategoryIndex(rows) {
      var i :| 0 <= i < |rows| && rows[i].mainCat.Some? && rows[i].mainCat.value == c;
      MemberOfRow(rows, i);
    }
  }

  /** Every member of a category carries that category in the metadata table. */
  lemma {:induction false} MembersInCategory(rows: seq<MetaRow>, c: string, x: string)
    requires UniqueAsins(rows) && x in Members(rows, c)
    ensures x in MetaIndex(rows) && MetaIndex(rows)[x] == Some(c)
  {
    var i := MemberRow(rows, c, x);
    MetaIndexAt(rows, i);
  }

  lemma {:induction false} MemberRow(rows: seq<MetaRow>, c: string, x: string) returns (i: nat)
    requires x in Members(rows, c)
    ensures i < |rows| && rows[i].asin == x && rows[i].mainCat == Some(c)
  {
    if rows[0].mainCat == Some(c) && rows[0].asin == x {
      i := 0;
    } else {
      var j := MemberRow(rows[1..], c, x);
      i := j + 1;
    }
  }

  /** A category's members are listed once each. */
  lemma {:induction false} MembersDistinct(rows: seq<MetaRow>, c: string)
    requires UniqueAsins(rows)
    ensures Distinct(Members(rows, c))
  {
    if rows != [] {
      var tail := Members(rows[1..], c);
      assert UniqueAsins(rows[1..]);
      MembersDistinct(rows[1..], c);
      if rows[0].mainCat == Some(c) {
        if rows[0].asin in tail {
          var j := MemberRow(rows[1..], c, rows[0].asin);
        }
        var r := [rows[0].asin] + tail;
        forall i, j | 0 <= i < j < |r| ensures r[i] != r[j] {
          assert r[j] == tail[j - 1];
          if i > 0 {
            assert r[i] == tail[i - 1];
          }
        }
      }
    }
  }

  /** A row of the product store, as the `products` table holds it. */
  datatype Product = Product(
    asin: string,
    title: Option<string>,
    brand: Option<string>,
    mainCat: Option<string>,
    imageUrl: Option<string>,
    popularity: Option<int>,
    avgRating: Option<real>)

  /** The record handed back to callers: the product's fields plus an always-empty price. */
  datatype ProductView = ProductView(
    asin: string,
    title: Option<string>,
    brand: Option<string>,
    mainCat: Option<string>,
    imageUrl: Option<string>,
    price: Option<real>,
    avgRating: Option<real>,
    popularity: Option<int>)

  /** The product store is keyed by item code. */
  predicate Keyed(db: map<string, Product>)
  {
    forall a :: a in db ==> db[a].asin == a
  }

  const Placeholder := "https://via.placeholder.com/300x300?text=No+Image"

  /** A stringified one-element list, the legacy form of an image field: `['...']`. */
  predicate LooksLikeList(s: string)
  {
    |s| >= 2 && s[..2] == "['" && s[|s| - 2..] == "']"
  }

  /**
   * The image field after clean-up. `parse` stands for `ast.literal_eval` on a list-shaped
   * string: `None` when it raises, otherwise the list's elements.
   */
  function NormaliseImage(img: Option<string>, parse: string -> Option<seq<string>>): (r: string)
    ensures |r| > 0
    ensures (img.None? || img.value == "") ==> r == Placeholder
  {
    var cleaned :=
      if img.Some? && LooksLikeList(img.value) then
        match parse(img.value)
        case Some(l) => if |l| > 0 then Some(l[0]) else img
        case None => img
      else img;
    if cleaned.None? || cleaned.value == "" then Placeholder else cleaned.value
  }

  /**
   * What the clean-up promises: the result is never empty; a list-shaped field that parses
   * to a list with a non-empty first element becomes that element, and one whose first
   * element is empty becomes the placeholder; a list-shaped field that does not parse, or
   * parses to an empty list, is kept as it is; a missing or empty field becomes the
   * placeholder; any other non-empty field is kept as it is.
   */
  lemma NormaliseImageCases(img: Option<string>, parse: string -> Option<seq<string>>)
    ensures |NormaliseImage(img, parse)| > 0
    ensures img.Some? && LooksLikeList(img.value) && parse(img.value).Some?
      && |parse(img.value).value| > 0 && parse(img.value).value[0] != ""
      ==> NormaliseImage(img, parse) == parse(img.value).value[0]
    ensures (img.None? || img.value == "") ==> NormaliseImage(img, parse) == Placeholder
    ensures img.Some? && img.value != "" && !LooksLikeList(img.value)
      ==> NormaliseImage(img, parse) == img.value
    ensures img.Some? && LooksLikeList(img.value) && (parse(img.value).None? || parse(img.value).value == [])
      ==> NormaliseImage(img, parse) == img.value
    ensures img.Some? && LooksLikeList(img.value) && parse(img.value).Some?
      && |parse(img.value).value| > 0 && parse(img.value).value[0] == ""
      ==> NormaliseImage(img, parse) == Placeholder
  {
  }

  function ToView(p: Product): ProductView
  {
    ProductView(p.asin, p.title, p.brand, p.mainCat, p.imageUrl, None, p.avgRating, p.popularity)
  }

  /** The records built by the first loop: one per input code the store holds, in input order. */
  function Found(db: map<string, Product>, asins: seq<string>): (r: seq<ProductView>)
    ensures |r| <= |asins|
    ensures forall i :: 0 <= i < |r| ==> r[i].price.None?
  {
    if asins == [] then []
    else
      var last := asins[|asins| - 1];
      Found(db, asins[..|asins| - 1]) + (if last in db then [ToView(db[last])] else [])
  }

  function WithImage(v: ProductView, parse: string -> Option<seq<string>>): ProductView
  {
    v.(imageUrl := Some(NormaliseImage(v.imageUrl, parse)))
  }

  /** The records the resolver returns: the found records with their image field cleaned. */
  function Resolve(db: map<string, Product>, asins: seq<string>, parse: string -> Option<seq<string>>): (r: seq<ProductView>)
    ensures |r| <= |asins|
    ensures forall i :: 0 <= i < |r| ==> r[i].price.None? && r[i].imageUrl.Some? && |r[i].imageUrl.value| > 0
  {
    var f := Found(db, asins);
    seq(|f|, i requires 0 <= i < |f| => WithImage(f[i], parse))
  }

  function Codes(vs: seq<ProductView>): (r: seq<string>)
    ensures |r| == |vs| && forall i :: 0 <= i < |vs| ==> r[i] == vs[i].asin
  {
    if vs == [] then [] else Codes(vs[..|vs| - 1]) + [vs[|vs| - 1].asin]
  }

  lemma {:induction false} FilterAppend(s: seq<string>, x: string, keep: string -> bool)
    ensures Filter(s + [x], keep) == Filter(s, keep) + (if keep(x) then [x] else [])
  {
    if s != [] {
      assert (s + [x])[1..] == s[1..] + [x];
      FilterAppend(s[1..], x, keep);
    }
  }

  /**
   * The resolver keeps input order and drops unknown codes: the codes of its records are the
   * input codes the store holds, in order. Each record carries the store's fields, a cleaned,
   * non-empty image and no price.
   */
  lemma {:induction false} ResolveFaithful(db: map<string, Product>, asins: seq<string>, parse: string -> Option<seq<string>>)
    requires Keyed(db)
    ensures Codes(Resolve(db, asins, parse)) == Filter(asins, a => a in db)
    ensures |Resolve(db, asins, parse)| <= |asins|
    ensures forall i :: 0 <= i < |Resolve(db, asins, parse)| ==>
      var v := Resolve(db, asins, parse)[i];
      && v.asin in db
      && v == WithImage(ToView(db[v.asin]), parse)
      && v.imageUrl.Some? && |v.imageUrl.value| > 0
      && v.price.None?
  {
    FoundCodes(db, asins);
    FoundRecords(db, asins);
    var f := Found(db, asins);
    var r := Resolve(db, asins, parse);
    assert Codes(r) == Codes(f) by {
      assert |Codes(r)| == |Codes(f)|;
      forall i | 0 <= i < |f| ensures Codes(r)[i] == Codes(f)[i] {
      }
    }
    forall i | 0 <= i < |r| ensures r[i].imageUrl.Some? && |r[i].imageUrl.value| > 0 {
      NormaliseImageCases(f[i].imageUrl, parse);
    }
  }

  /** In a store keyed by code, resolving codes without repeats gives records without repeats. */
  lemma ResolveDistinct(db: map<string, Product>, asins: seq<string>, parse: string -> Option<seq<string>>)
    requires Keyed(db) && Distinct(asins)
    ensures Distinct(Codes(Resolve(db, asins, parse)))
  {
    ResolveFaithful(db, asins, parse);
    FilterDistinct(asins, a => a in db);
  }

  lemma {:induction false} FoundCodes(db: map<string, Product>, asins: seq<string>)
    requires Keyed(db)
    ensures Codes(Found(db, asins)) == Filter(asins, a => a in db)
  {
    if asins != [] {
      var front, last := asins[..|asins| - 1], asins[|asins| - 1];
      FoundCodes(db, front);
      assert asins == front + [last];
      FilterAppend(front, last, a => a in db);
      var f := Found(db, front);
      var tail := if last in db then [ToView(db[last])] else [];
      assert Found(db, asins) == f + tail;
      if tail != [] {
        assert (f + tail)[..|f + tail| - 1] == f;
      } else {
        assert f + tail == f;
      }
    }
  }

  lemma {:induction false} FoundRecords(db: map<string, Product>, asins: seq<string>)
    requires Keyed(db)
    ensures forall i :: 0 <= i < |Found(db, asins)| ==>
      Found(db, asins)[i].asin in db && Found(db, asins)[i] == ToView(db[Found(db, asins)[i].asin])
  {
    if asins != [] {
      FoundRecords(db, asins[..|asins| - 1]);
    }
  }
}

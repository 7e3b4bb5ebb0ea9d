/**
 * Identifier codec: a label encoder maps an identifier (a username or an item code)
 * to its position in the encoder's list of classes, and a position back to the identifier.
 */
module Codec {
  import opened Basics

  /** The encoder's classes, position i holding the identifier with index i. */
  datatype Encoder = Encoder(classes: seq<string>)

  /** A fitted label encoder holds each class once. */
  predicate Fitted(e: Encoder)
  {
    Distinct(e.classes)
  }

  function IndexIn(s: seq<string>, id: string): (r: Option<nat>)
    ensures r.Some? <==> id in s
    ensures r.Some? ==> r.value < |s| && s[r.value] == id
    ensures r.Some? ==> forall j :: 0 <= j < r.value ==> s[j] != id
  {
    if s == [] then None
    else if s[0] == id then Some(0)
    else match IndexIn(s[1..], id)
      case None => None
      case Some(i) => Some(i + 1)
  }

  /** `transform([id])[0]`, answered only for a known identifier. */
  function Encode(e: Encoder, id: string): (r: Option<nat>)
    ensures r.Some? <==> id in e.classes
    ensures r.Some? ==> r.value < |e.classes| && e.classes[r.value] == id
  {
    IndexIn(e.classes, id)
  }

  /** `inverse_transform` of one index; it fails for an index outside the classes. */
  function Decode(e: Encoder, i: int): (r: Option<string>)
    ensures r.Some? <==> 0 <= i < |e.classes|
    ensures r.Some? ==> r.value in e.classes
  {
    if 0 <= i < |e.classes| then Some(e.classes[i]) else None
  }

  /** `inverse_transform` of a whole index list: it fails if any index is unknown. */
  function DecodeAll(e: Encoder, idx: seq<int>): (r: Option<seq<string>>)
    ensures r.Some? <==> forall t :: 0 <= t < |idx| ==> 0 <= idx[t] < |e.classes|
    ensures r.Some? ==> |r.value| == |idx|
    ensures r.Some? ==> forall t :: 0 <= t < |idx| ==> r.value[t] == e.classes[idx[t]]
  {
    if idx == [] then Some([])
    else match (Decode(e, idx[0]), DecodeAll(e, idx[1..]))
      case (Some(x), Some(xs)) => Some([x] + xs)
      case _ => None
  }

  /**
   * The indices of the identifiers the encoder knows, in input order; unknown identifiers
   * are dropped.
   */
  function KnownIndices(e: Encoder, ids: seq<string>): (r: seq<nat>)
    ensures |r| <= |ids|
    ensures forall t :: 0 <= t < |r| ==> r[t] < |e.classes| && e.classes[r[t]] in ids
    ensures forall id :: id in ids && id in e.classes ==> Encode(e, id).value in r
    ensures r == [] <==> forall id :: id in ids ==> id !in e.classes
  {
    if ids == [] then []
    else
      var front, last := ids[..|ids| - 1], ids[|ids| - 1];
      assert forall id :: id in ids <==> id in front || id == last;
      KnownIndices(e, front) + (match Encode(e, last) case None => [] case Some(i) => [i])
  }

  /** Appending one identifier appends its index when it is known, and nothing otherwise. */
  lemma KnownIndicesSnoc(e: Encoder, ids: seq<string>, id: string)
    ensures KnownIndices(e, ids + [id]) ==
            KnownIndices(e, ids) + (match Encode(e, id) case None => [] case Some(i) => [i])
  {
    assert (ids + [id])[..|ids|] == ids;
  }

  /** Decoding then encoding an index gives it back: the encoder is a bijection onto [0, N). */
  lemma EncodeDecode(e: Encoder, i: nat)
    requires Fitted(e) && i < |e.classes|
    ensures Encode(e, e.classes[i]) == Some(i)
  {
  }

  /** Decoding distinct indices yields distinct identifiers. */
  lemma DecodeAllDistinct(e: Encoder, idx: seq<int>)
    requires Fitted(e) && Distinct(idx) && DecodeAll(e, idx).Some?
    ensures Distinct(DecodeAll(e, idx).value)
  {
    var ids := DecodeAll(e, idx).value;
    forall i, j | 0 <= i < j < |ids| ensures ids[i] != ids[j] {
      assert ids[i] == e.classes[idx[i]] && ids[j] == e.classes[idx[j]];
      assert idx[i] != idx[j];
    }
  }
}

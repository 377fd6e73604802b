/** The rarity-rank client: fetches the ranked assets of a policy and reshapes each record
    into an asset ID, a numeric rank and its trait attributes, sorted by rank. The HTTP GET
    is a function from the request URI to the response. */
module CnftTools {
  import opened Wrappers
  import opened Decimal

  /** A fetched record, field name to value. */
  type FetchedRankedPolicyAsset = map<string, string>

  datatype RankedPolicyAsset = RankedPolicyAsset(assetId: string, rank: nat, attributes: map<string, string>)

  /** The record fields that are not trait attributes. */
  const ExcludeKeysFromAttributes: seq<string> :=
    ["assetID", "assetName", "name", "encodedName", "iconurl", "rarityRank", "ownerStakeKey", "onSale"]

  /** The rejection of the HTTP client; only error.response.data.error is inspected, and
      None stands for any link of that path being absent. */
  datatype RequestError = RequestError(responseDataError: Option<string>)

  datatype Response = Fetched(data: seq<FetchedRankedPolicyAsset>) | Failed(error: RequestError)

  /** How the returned promise settles. */
  datatype Settlement = Resolved(assets: Option<seq<RankedPolicyAsset>>) | Rejected(error: RequestError)

  const PolicyNotFound: string := "Policy ID not found"

  const DefaultBaseUrl: string := "https://api.cnft.tools"

  /** The URI is the base URL, the path "/api/external/" and the policy ID, in that order. */
  function RequestUri(baseUrl: string, policyId: string): (uri: string)
    ensures |uri| == |baseUrl| + 14 + |policyId| && uri[..|baseUrl|] == baseUrl
    ensures uri[|baseUrl|..|baseUrl| + 14] == "/api/external/" && uri[|baseUrl| + 14..] == policyId
  {
    baseUrl + "/api/external/" + policyId
  }

  /** For one base URL, different policies are fetched from different URIs. */
  lemma RequestUriParts(baseUrl: string, policyId: string, otherPolicyId: string)
    ensures RequestUri(baseUrl, policyId) == RequestUri(baseUrl, otherPolicyId) <==> policyId == otherPolicyId
  {
    var uri, other := RequestUri(baseUrl, policyId), RequestUri(baseUrl, otherPolicyId);
    assert uri[|baseUrl| + 14..] == policyId;
    assert other[|baseUrl| + 14..] == otherPolicyId;
  }

  /** The catch block: an unknown policy resolves to null, anything else is rejected. */
  function SettleError(error: RequestError): (s: Settlement)
    ensures s == Resolved(None) <==> error.responseDataError == Some(PolicyNotFound)
    ensures s != Resolved(None) ==> s == Rejected(error)
  {
    if error.responseDataError == Some(PolicyNotFound) then Resolved(None) else Rejected(error)
  }

  /** item.encodedName inside a template literal: a missing field prints as "undefined". */
  function EncodedName(item: FetchedRankedPolicyAsset): string
  {
    if "encodedName" in item then item["encodedName"] else "undefined"
  }

  /** Ranks are decimal digit texts, whose exact value is a natural number. */
  predicate HasNumericRank(item: FetchedRankedPolicyAsset) {
    "rarityRank" in item && IsDigits(item["rarityRank"])
  }

  predicate AllRanksNumeric(data: seq<FetchedRankedPolicyAsset>) {
    forall i :: 0 <= i < |data| ==> HasNumericRank(data[i])
  }

  /** The exact value of the digits of item.rarityRank: a rank of n digits is below 10^n, and "" gives 0. */
  function Rank(item: FetchedRankedPolicyAsset): (r: nat)
    requires HasNumericRank(item)
    ensures r < Pow10(|item["rarityRank"]|)
  {
    DigitsValueBound(item["rarityRank"]);
    DigitsValue(item["rarityRank"])
  }

  /** The key whose assignment on a plain object goes to the prototype setter. */
  const ProtoKey: string := "__proto__"

  /** attributes[key] = val on an object made by {}: "__proto__" calls the prototype setter,
      which ignores a value that is not an object (every value here is a string), so the
      object keeps no such property; any other key gets the value. */
  function SetField(attributes: map<string, string>, key: string, val: string): map<string, string>
  {
    if key == ProtoKey then attributes else attributes[key := val]
  }

  /** The attributes of one record: every field except the excluded ones and "__proto__",
      with its value; nothing else. */
  function AttributesOf(item: FetchedRankedPolicyAsset): (attributes: map<string, string>)
    ensures attributes.Keys == item.Keys - (set k | k in ExcludeKeysFromAttributes) - {ProtoKey}
    ensures forall k :: k in attributes ==> attributes[k] == item[k]
  {
    map k | k in item && k !in ExcludeKeysFromAttributes && k != ProtoKey :: item[k]
  }

  /** The object the map callback builds for one record: the policy ID followed by the
      encoded name, or by "undefined" when the record has none; the numeric rank; and the
      record's attributes. */
  function Shape(policyId: string, item: FetchedRankedPolicyAsset): (a: RankedPolicyAsset)
    requires HasNumericRank(item)
    ensures |a.assetId| >= |policyId| && a.assetId[..|policyId|] == policyId
    ensures "encodedName" in item ==> a.assetId[|policyId|..] == item["encodedName"]
    ensures "encodedName" !in item ==> a.assetId[|policyId|..] == "undefined"
    ensures a.rank == Rank(item) && a.attributes == AttributesOf(item)
  {
    RankedPolicyAsset(policyId + EncodedName(item), Rank(item), AttributesOf(item))
  }

  function ShapeAll(policyId: string, data: seq<FetchedRankedPolicyAsset>): (r: seq<RankedPolicyAsset>)
    requires AllRanksNumeric(data)
    ensures |r| == |data|
  {
    seq(|data|, i requires 0 <= i < |data| => Shape(policyId, data[i]))
  }

  /** Every shaped asset carries the policy ID followed by the record's encoded name, the
      numeric rank, and exactly the non-excluded fields with their values. */
  lemma ShapeFields(policyId: string, item: FetchedRankedPolicyAsset)
    requires HasNumericRank(item) && "encodedName" in item
    ensures var a := Shape(policyId, item);
      a.assetId[..|policyId|] == policyId && a.assetId[|policyId|..] == item["encodedName"]
      && a.rank == DigitsValue(item["rarityRank"])
      && (forall k :: k in ExcludeKeysFromAttributes ==> k !in a.attributes)
      && ProtoKey !in a.attributes
      && (forall k :: k in item && k !in ExcludeKeysFromAttributes && k != ProtoKey ==>
            k in a.attributes && a.attributes[k] == item[k])
      && a.attributes.Keys <= item.Keys
  {
  }

  /** The forEach over Object.entries(item) that fills `attributes` one key at a time. */
  method CollectAttributes(item: FetchedRankedPolicyAsset) returns (attributes: map<string, string>)
    ensures attributes == AttributesOf(item)
  {
    attributes := map[];
    var entries := item.Keys;
    while entries != {}
      invariant entries <= item.Keys
      invariant forall k :: k in attributes <==> k in item && k !in entries && k !in ExcludeKeysFromAttributes && k != ProtoKey
      invariant forall k :: k in attributes ==> attributes[k] == item[k]
      decreases |entries|
    {
      var key :| key in entries;
      if key !in ExcludeKeysFromAttributes {
        attributes := SetField(attributes, key, item[key]);
      }
      entries := entries - {key};
    }
  }

  // ---------------------------------------------------------------------------------
  // Sorting by rank: Array.prototype.sort with the comparator a.rank - b.rank is stable.

  predicate SortedByRank(s: seq<RankedPolicyAsset>) {
    forall i, j :: 0 <= i < j < |s| ==> s[i].rank <= s[j].rank
  }

  /** Inserts x behind every element whose rank is not above its own. */
  function Insert(x: RankedPolicyAsset, s: seq<RankedPolicyAsset>): seq<RankedPolicyAsset>
  {
    if s == [] || s[|s| - 1].rank <= x.rank then s + [x]
    else Insert(x, s[..|s| - 1]) + [s[|s| - 1]]
  }

  /** The stable sort by rank, by insertion from the left. */
  function StableSorted(s: seq<RankedPolicyAsset>): seq<RankedPolicyAsset>
  {
    if s == [] then [] else Insert(s[|s| - 1], StableSorted(s[..|s| - 1]))
  }

  /** The elements of one rank, in their order. */
  function WithRank(s: seq<RankedPolicyAsset>, r: nat): seq<RankedPolicyAsset>
  {
    if s == [] then []
    else WithRank(s[..|s| - 1], r) + if s[|s| - 1].rank == r then [s[|s| - 1]] else []
  }

  lemma {:induction false} InsertPermutes(x: RankedPolicyAsset, s: seq<RankedPolicyAsset>)
    ensures |Insert(x, s)| == |s| + 1
    ensures multiset(Insert(x, s)) == multiset(s) + multiset{x}
    decreases |s|
  {
    if s != [] && s[|s| - 1].rank > x.rank {
      InsertPermutes(x, s[..|s| - 1]);
      assert s == s[..|s| - 1] + [s[|s| - 1]];
    }
  }

  /** Inserting below a bound keeps every rank below it. */
  lemma {:induction false} InsertBounded(x: RankedPolicyAsset, s: seq<RankedPolicyAsset>, m: nat)
    requires x.rank <= m && forall i :: 0 <= i < |s| ==> s[i].rank <= m
    ensures forall i :: 0 <= i < |Insert(x, s)| ==> Insert(x, s)[i].rank <= m
    decreases |s|
  {
    if s != [] && s[|s| - 1].rank > x.rank {
      var init, last := s[..|s| - 1], s[|s| - 1];
      assert Insert(x, s) == Insert(x, init) + [last];
      InsertBounded(x, init, m);
    } else {
      assert Insert(x, s) == s + [x];
    }
  }

  lemma {:induction false} InsertSorted(x: RankedPolicyAsset, s: seq<RankedPolicyAsset>)
    requires SortedByRank(s)
    ensures SortedByRank(Insert(x, s))
    decreases |s|
  {
    if s != [] && s[|s| - 1].rank > x.rank {
      var init, last := s[..|s| - 1], s[|s| - 1];
      assert Insert(x, s) == Insert(x, init) + [last];
      InsertSorted(x, init);
      InsertBounded(x, init, last.rank);
    } else {
      assert Insert(x, s) == s + [x];
    }
  }

  /** Appending one element adds it to the elements of its rank only. */
  lemma WithRankSnoc(s: seq<RankedPolicyAsset>, y: RankedPolicyAsset, r: nat)
    ensures WithRank(s + [y], r) == WithRank(s, r) + if y.rank == r then [y] else []
  {
    assert (s + [y])[..|s|] == s;
  }

  lemma {:induction false} InsertWithRank(x: RankedPolicyAsset, s: seq<RankedPolicyAsset>, r: nat)
    ensures WithRank(Insert(x, s), r) == WithRank(s, r) + if x.rank == r then [x] else []
    decreases |s|
  {
    if s != [] && s[|s| - 1].rank > x.rank {
      var init, last := s[..|s| - 1], s[|s| - 1];
      assert Insert(x, s) == Insert(x, init) + [last];
      InsertWithRank(x, init, r);
      WithRankSnoc(Insert(x, init), last, r);
    } else {
      assert Insert(x, s) == s + [x];
      WithRankSnoc(s, x, r);
    }
  }

  /** The stable sort is sorted, a permutation of its input, and keeps the input order of
      elements of equal rank. */
  lemma StableSortedProperties(s: seq<RankedPolicyAsset>)
    ensures |StableSorted(s)| == |s|
    ensures SortedByRank(StableSorted(s))
    ensures multiset(StableSorted(s)) == multiset(s)
    ensures forall r :: WithRank(StableSorted(s), r) == WithRank(s, r)
  {
    StableSortedPermutes(s);
    StableSortedIsSorted(s);
    forall r {
      StableSortedKeepsTies(s, r);
    }
  }

  lemma {:induction false} StableSortedPermutes(s: seq<RankedPolicyAsset>)
    ensures |StableSorted(s)| == |s|
    ensures multiset(StableSorted(s)) == multiset(s)
  {
    if s != [] {
      var init, last := s[..|s| - 1], s[|s| - 1];
      var sorted := StableSorted(init);
      assert StableSorted(s) == Insert(last, sorted);
      StableSortedPermutes(init);
      InsertPermutes(last, sorted);
      assert multiset(s) == multiset(init) + multiset{last} by {
        assert s == init + [last];
      }
    }
  }

  lemma {:induction false} StableSortedIsSorted(s: seq<RankedPolicyAsset>)
    ensures SortedByRank(StableSorted(s))
  {
    if s != [] {
      var init, last := s[..|s| - 1], s[|s| - 1];
      assert StableSorted(s) == Insert(last, StableSorted(init));
      StableSortedIsSorted(init);
      InsertSorted(last, StableSorted(init));
    }
  }

  lemma {:induction false} StableSortedKeepsTies(s: seq<RankedPolicyAsset>, r: nat)
    ensures WithRank(StableSorted(s), r) == WithRank(s, r)
  {
    if s != [] {
      var init, last := s[..|s| - 1], s[|s| - 1];
      assert StableSorted(s) == Insert(last, StableSorted(init));
      StableSortedKeepsTies(init, r);
      InsertWithRank(last, StableSorted(init), r);
    }
  }

  /** Insert puts x right after the last element whose rank is not above its own. */
  lemma {:induction false} InsertAt(x: RankedPolicyAsset, s: seq<RankedPolicyAsset>, j: nat)
    requires j <= |s| && (j == 0 || s[j - 1].rank <= x.rank)
    requires forall k :: j <= k < |s| ==> s[k].rank > x.rank
    ensures Insert(x, s) == s[..j] + [x] + s[j..]
    decreases |s|
  {
    if j < |s| {
      var init, last := s[..|s| - 1], s[|s| - 1];
      assert Insert(x, s) == Insert(x, init) + [last];
      InsertAt(x, init, j);
      assert init[..j] == s[..j];
      assert s[j..] == init[j..] + [last];
    } else {
      assert Insert(x, s) == s + [x];
      assert s[..j] == s;
    }
  }

  /** Moves the elements of a[..i] whose rank is above x.rank one place right, keeping
      their order, and returns the gap they leave. */
  method OpenGap(a: array<RankedPolicyAsset>, i: nat, x: RankedPolicyAsset) returns (j: nat)
    requires i < a.Length
    modifies a
    ensures j <= i && (j > 0 ==> old(a[j - 1]).rank <= x.rank)
    ensures forall k :: 0 <= k < j ==> a[k] == old(a[k])
    ensures forall k :: j < k <= i ==> a[k] == old(a[k - 1])
    ensures forall k :: i < k < a.Length ==> a[k] == old(a[k])
    ensures forall k :: j <= k < i ==> old(a[k]).rank > x.rank
  {
    j := i;
    while j > 0 && a[j - 1].rank > x.rank
      invariant 0 <= j <= i
      invariant forall k :: 0 <= k < j ==> a[k] == old(a[k])
      invariant forall k :: j < k <= i ==> a[k] == old(a[k - 1])
      invariant forall k :: i < k < a.Length ==> a[k] == old(a[k])
      invariant forall k :: j <= k < i ==> old(a[k]).rank > x.rank
    {
      a[j] := a[j - 1];
      j := j - 1;
    }
  }

  /** Moves a[i] left past the elements of higher rank in the sorted prefix a[..i]. */
  method InsertLast(a: array<RankedPolicyAsset>, i: nat)
    requires i < a.Length
    modifies a
    ensures a[..i + 1] == Insert(old(a[i]), old(a[..i]))
    ensures a[i + 1..] == old(a[i + 1..])
  {
    var x := a[i];
    ghost var sorted := a[..i];
    ghost var rest := a[i + 1..];
    var j := OpenGap(a, i, x);
    a[j] := x;
    assert a[..i + 1] == Insert(x, sorted) by {
      InsertAt(x, sorted, j);
      Shifted(a[..i + 1], sorted, x, j);
    }
    assert a[i + 1..] == rest by {
      forall k | i + 1 <= k < a.Length ensures a[k] == rest[k - i - 1] {
      }
    }
  }

  /** A sequence that agrees with s before j, holds x at j and s shifted by one after j
      is s with x inserted at j. */
  lemma Shifted(b: seq<RankedPolicyAsset>, s: seq<RankedPolicyAsset>, x: RankedPolicyAsset, j: nat)
    requires |b| == |s| + 1 && j <= |s| && b[j] == x
    requires forall k :: 0 <= k < j ==> b[k] == s[k]
    requires forall k :: j < k < |b| ==> b[k] == s[k - 1]
    ensures b == s[..j] + [x] + s[j..]
  {
    var t := s[..j] + [x] + s[j..];
    forall k | 0 <= k < |b| ensures b[k] == t[k] {
      if k > j {
        assert t[k] == s[j..][k - j - 1];
      }
    }
  }

  /** Insertion sort of the array in place. */
  method SortByRank(a: array<RankedPolicyAsset>)
    modifies a
    ensures a[..] == StableSorted(old(a[..]))
  {
    ghost var input := a[..];
    var i := 0;
    while i < a.Length
      invariant 0 <= i <= a.Length
      invariant a[..i] == StableSorted(input[..i])
      invariant a[i..] == input[i..]
    {
      ghost var x := a[i];
      assert x == input[i] by {
        assert a[i..][0] == input[i..][0];
      }
      InsertLast(a, i);
      assert a[..i + 1] == StableSorted(input[..i + 1]) by {
        assert input[..i + 1][..i] == input[..i];
      }
      assert a[i + 1..] == input[i + 1..];
      i := i + 1;
    }
    assert input[..a.Length] == input;
  }

  /** data.map(...): a new array holding the shaped record of every fetched record, with
      the attributes collected by the forEach. */
  method MapRecords(policyId: string, data: seq<FetchedRankedPolicyAsset>) returns (mapped: array<RankedPolicyAsset>)
    requires AllRanksNumeric(data)
    ensures fresh(mapped) && mapped[..] == ShapeAll(policyId, data)
  {
    mapped := new RankedPolicyAsset[|data|];
    ghost var shaped := ShapeAll(policyId, data);
    for i := 0 to |data|
      invariant mapped[..i] == shaped[..i]
    {
      var attributes := CollectAttributes(data[i]);
      mapped[i] := RankedPolicyAsset(policyId + EncodedName(data[i]), Rank(data[i]), attributes);
      assert mapped[..i + 1] == mapped[..i] + [shaped[i]];
    }
    assert mapped[..] == mapped[..|data|];
  }

  class CnftTools {
    var baseUrl: string

    constructor()
      ensures baseUrl == DefaultBaseUrl
    {
      baseUrl := DefaultBaseUrl;
    }

    /** getPolicyAssets: GET baseUrl/api/external/policyId, reshape every record, sort by
        rank; an unknown policy gives null, any other failure is passed on. */
    method GetPolicyAssets(policyId: string, get: string -> Response) returns (settlement: Settlement)
      requires get(RequestUri(baseUrl, policyId)).Fetched? ==> AllRanksNumeric(get(RequestUri(baseUrl, policyId)).data)
      ensures match get(RequestUri(baseUrl, policyId))
        case Failed(error) => settlement == SettleError(error)
        case Fetched(data) =>
          settlement == Resolved(Some(StableSorted(ShapeAll(policyId, data))))
          && |settlement.assets.value| == |data|
          && SortedByRank(settlement.assets.value)
          && multiset(settlement.assets.value) == multiset(ShapeAll(policyId, data))
          && forall r :: WithRank(settlement.assets.value, r) == WithRank(ShapeAll(policyId, data), r)
    {
      var uri := RequestUri(baseUrl, policyId);
      match get(uri)
      case Failed(error) =>
        settlement := SettleError(error);
      case Fetched(data) =>
        var mapped := MapRecords(policyId, data);
        SortByRank(mapped);
        StableSortedProperties(ShapeAll(policyId, data));
        settlement := Resolved(Some(mapped[..]));
    }
  }
}

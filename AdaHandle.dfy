/** Resolving an ADA Handle ("$name") to the address that holds the handle's token. The
    token's asset ID is the fixed handle policy ID followed by the hex of the name; the
    holder lookup of the chain indexer is passed in as a function of that asset ID. */
module AdaHandle {
  import opened Wrappers
  import Hex

  /** The policy ID of the handle tokens, written in pieces so that the digits of each
      piece are checked on their own. */
  const AdaHandlePolicyId: string :=
    "f0ff48bbb7bbe9d5" + "9a40f1ce90e9e9d0" + "ff5002ec48f232b4" + "9ca0fb9a"

  /** The policy ID is 56 lower-case hex digits: 28 octets. */
  lemma PolicyIdIsHex()
    ensures |AdaHandlePolicyId| == 56 && Hex.LowerHexText(AdaHandlePolicyId)
  {
    var a, b, c, d := "f0ff48bbb7bbe9d5", "9a40f1ce90e9e9d0", "ff5002ec48f232b4", "9ca0fb9a";
    assert Hex.LowerHexText(a) && Hex.LowerHexText(b) && Hex.LowerHexText(c) && Hex.LowerHexText(d);
    Hex.LowerHexConcat(a, b);
    Hex.LowerHexConcat(a + b, c);
    Hex.LowerHexConcat(a + b + c, d);
  }

  /** The index of the first c in s, or |s| when there is none. */
  function FirstIndex(s: string, c: char): (i: nat)
    ensures i <= |s| && (i < |s| ==> s[i] == c)
    ensures forall k :: 0 <= k < i ==> s[k] != c
  {
    if s == [] || s[0] == c then 0
    else
      var i := FirstIndex(s[1..], c) + 1;
      assert forall k :: 1 <= k < i ==> s[k] == s[1..][k - 1];
      i
  }

  /** s.replace(c, ''): a string pattern replaces its first occurrence only. */
  function RemoveFirst(s: string, c: char): (r: string)
    ensures c !in s ==> r == s
  {
    if s == [] then []
    else if s[0] == c then s[1..]
    else [s[0]] + RemoveFirst(s[1..], c)
  }

  /** What is removed is exactly the first occurrence of c; the rest keeps its order. */
  lemma {:induction false} RemoveFirstOccurrence(s: string, c: char)
    ensures var i := FirstIndex(s, c);
      RemoveFirst(s, c) == if i < |s| then s[..i] + s[i + 1..] else s
  {
    if s != [] && s[0] != c {
      var t := s[1..];
      var k := FirstIndex(t, c);
      assert FirstIndex(s, c) == k + 1;
      assert RemoveFirst(s, c) == [s[0]] + RemoveFirst(t, c);
      if k < |t| {
        assert RemoveFirst(t, c) == t[..k] + t[k + 1..] by {
          RemoveFirstOccurrence(t, c);
        }
        RemoveFirstInside(s, k);
      } else {
        assert RemoveFirst(t, c) == t by {
          RemoveFirstOccurrence(t, c);
        }
        assert [s[0]] + t == s;
      }
    } else if s != [] {
      assert s[..0] + s[1..] == s[1..];
    }
  }

  lemma RemoveFirstInside(s: string, k: nat)
    requires s != [] && k + 1 < |s|
    ensures [s[0]] + (s[1..][..k] + s[1..][k + 1..]) == s[..k + 1] + s[k + 2..]
  {
    assert [s[0]] + s[1..][..k] == s[..k + 1];
    assert s[1..][k + 1..] == s[k + 2..];
  }

  /** The asset ID looked up for a handle: the policy ID followed by the hex of the handle
      with its first '$' removed. It is lower-case hex throughout, and it is the bare policy
      ID exactly when nothing but that '$' was given. */
  function HandleAssetId(handle: string): (id: string)
    ensures |id| == 56 + |Hex.HexEncode(RemoveFirst(handle, '$'))|
    ensures id[..56] == AdaHandlePolicyId && id[56..] == Hex.HexEncode(RemoveFirst(handle, '$'))
    ensures Hex.LowerHexText(id)
    ensures |id| == 56 <==> RemoveFirst(handle, '$') == []
  {
    PolicyIdIsHex();
    Hex.LowerHexConcat(AdaHandlePolicyId, Hex.HexEncode(RemoveFirst(handle, '$')));
    AdaHandlePolicyId + Hex.HexEncode(RemoveFirst(handle, '$'))
  }

  /** One entry of the indexer's holder list for an asset. */
  datatype AssetAddress = AssetAddress(address: string, quantity: string)

  /** resolveAddressFromHandle: the first holder's address, or '' when there is none or it
      is empty; a failed lookup is passed on unchanged. */
  function ResolveAddressFromHandle<E>(handle: string, assetsAddresses: string -> Result<seq<AssetAddress>, E>)
    : (r: Result<string, E>)
    ensures var looked := assetsAddresses(HandleAssetId(handle));
      (r.Err? <==> looked.Err?) && (r.Err? ==> r.error == looked.error)
      && (r.Ok? && r.value != "" ==> looked.Ok? && looked.value != [] && r.value == looked.value[0].address)
      && (r == Ok("") <==> looked.Ok? && (looked.value == [] || looked.value[0].address == ""))
  {
    var data :- assetsAddresses(HandleAssetId(handle));
    Ok(if |data| > 0 && data[0].address != "" then data[0].address else "")
  }

  /** A leading '$' makes no difference exactly when the name has no other '$': otherwise
      the name's own first '$' is the one removed, and the asset ID is two digits shorter. */
  lemma SigilIsOptional(name: string)
    ensures HandleAssetId("$" + name) == HandleAssetId(name) <==> '$' !in name
  {
    assert ("$" + name)[1..] == name;
    if '$' in name {
      RemovedSigilShortens(name);
    }
  }

  /** Removing a '$' takes its two hex digits out of the encoding. */
  lemma RemovedSigilShortens(name: string)
    requires '$' in name
    ensures |Hex.HexEncode(RemoveFirst(name, '$'))| + 2 == |Hex.HexEncode(name)|
  {
    var i := FirstIndex(name, '$');
    assert i < |name| && name[i] == '$' by {
      var j :| 0 <= j < |name| && name[j] == '$';
      assert i <= j;
    }
    assert RemoveFirst(name, '$') == name[..i] + name[i + 1..] by {
      RemoveFirstOccurrence(name, '$');
    }
    assert |Hex.HexEncode(name[..i] + name[i + 1..])| + 2 == |Hex.HexEncode(name)| by {
      Hex.HexEncodeRemoveAt(name, i);
    }
  }

  /** Only the first '$' goes: any later one is hex-encoded, as "24". */
  lemma LaterSigilsAreEncoded(name: string)
    ensures HandleAssetId("$" + name) == AdaHandlePolicyId + Hex.HexEncode(name)
    ensures Hex.HexEncode("$") == "24"
  {
    assert ("$" + name)[1..] == name;
    assert Hex.CodeUnits("$") == [0x24] by {
      assert "$"[..0] == [];
    }
    assert Hex.HexOfUnits([0x24]) == "24" by {
      assert [0x24][..0] == [];
      assert Hex.ToBase16(0x24) == "24";
    }
  }

  /** For handles whose characters are in 0x10..0x7F the asset ID has two digits per
      remaining character, and those digits decode back to the handle without its '$'. */
  lemma HandleAssetIdAscii(handle: string)
    requires forall i :: 0 <= i < |handle| ==> 0x10 <= handle[i] as int < 0x80
    ensures var name := RemoveFirst(handle, '$');
      |HandleAssetId(handle)| == 56 + 2 * |name|
      && (name != [] ==> Hex.FromHexToString(HandleAssetId(handle)[56..]) == Ok(name))
  {
    var name := RemoveFirst(handle, '$');
    RemoveFirstKeepsRange(handle);
    Hex.HexEncodeTwoDigits(name);
    if name != [] {
      Hex.RoundTrip(name);
    }
  }

  /** Removing the sigil leaves only characters the handle already had in 0x10..0x7F. */
  lemma RemoveFirstKeepsRange(handle: string)
    requires forall i :: 0 <= i < |handle| ==> 0x10 <= handle[i] as int < 0x80
    ensures forall i :: 0 <= i < |RemoveFirst(handle, '$')| ==> 0x10 <= RemoveFirst(handle, '$')[i] as int < 0x80
  {
    var name := RemoveFirst(handle, '$');
    var j := FirstIndex(handle, '$');
    RemoveFirstOccurrence(handle, '$');
    forall i | 0 <= i < |name| ensures 0x10 <= name[i] as int < 0x80 {
      if j < |handle| {
        assert name[i] == if i < j then handle[i] else handle[i + 1];
      }
    }
  }

  /** The result is the first holder's address, or '' when there are no holders. */
  lemma ResolvesToFirstHolder<E>(handle: string, assetsAddresses: string -> Result<seq<AssetAddress>, E>)
    ensures var looked := assetsAddresses(HandleAssetId(handle));
      var r := ResolveAddressFromHandle(handle, assetsAddresses);
      (looked.Err? ==> r == Err(looked.error))
      && (looked.Ok? && looked.value == [] ==> r == Ok(""))
      && (looked.Ok? && looked.value != [] ==> r == Ok(looked.value[0].address))
  {
  }

  /** Holders after the first never affect the result. */
  lemma LaterHoldersIgnored<E>(handle: string, f: string -> Result<seq<AssetAddress>, E>,
                               g: string -> Result<seq<AssetAddress>, E>)
    requires var id := HandleAssetId(handle);
      f(id).Ok? && g(id).Ok? && |f(id).value| > 0 && |g(id).value| > 0
      && f(id).value[0].address == g(id).value[0].address
    ensures ResolveAddressFromHandle(handle, f) == ResolveAddressFromHandle(handle, g)
  {
  }
}

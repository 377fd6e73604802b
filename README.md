# Cardano-API formatting and lookup core, in Dafny

This project models the small pieces of string and number logic that sit behind the
Cardano API endpoints, and proves properties about them:

- **Hex text codec** (`functions/formatters/hex.ts`). `FromStringToHex` writes each
  UTF-16 code unit of a string as lower-case base-16 digits, with no padding. It is a
  method with the source's `for` loop, proved against `HexEncode`. `FromHexToString`
  cuts a hex text into groups of at most two characters, as `/.{1,2}/g` does, where `.`
  does not match a line terminator. Without the `u` flag the expression groups UTF-16
  code units, and the model groups characters. The decode result is the same: a
  character above U+FFFF makes its group non-hex either way, and the decode fails. It puts `%` before each group and hands the text to
  `decodeURIComponent`. A failed match gives the text `%undefined`.
  `decodeURIComponent` is modelled in module `Uri`, following the Decode operation of
  ECMA-262 with an empty reserved set. Octets are read as UTF-8 per RFC 3629. The
  decoder is proved sound and complete against an independent UTF-8 encoder,
  `Utf8.Encode`.
- **Token amount scaling** (`functions/formatters/tokenAmount.ts`). The factor is the
  number of the text `1` followed by `decimals` zeros, proved equal to 10^decimals.
  Amounts are exact reals.
- **ADA Handle asset ID and holder choice** (`functions/resolvers/adaHandle.ts`). The
  first `$` is removed wherever it stands (`replace` with a string pattern removes one
  occurrence), the rest is hex-encoded with the codec, and the 56-digit handle policy ID
  is put in front. So `"$name"` and `"name"` give the same asset ID exactly when `name`
  holds no `$` (`AdaHandle.SigilIsOptional`). The holder lookup is a function parameter.
  The result is the first holder's address, or `''`.
- **Rarity-rank client** (`utils/cnftTools.ts`). A class `CnftTools` with its
  `baseUrl` field. `GetPolicyAssets` does the following:
  - It builds the request URI.
  - It takes the HTTP GET as a function of that URI.
  - It copies every non-excluded field of each record into `attributes`, with the
    `forEach` loop as a method.
  - It builds the asset ID and the numeric rank.
  - It sorts the array in place by rank. The sort is a stable insertion sort, proved
    against a functional specification `StableSorted`.
  - It maps the upstream error "Policy ID not found" to `null` and rejects on any other
    error.

Modules: `Wrappers` (Option, Result), `Utf8`, `Uri`, `Hex`, `Decimal` (digit texts and
powers of ten), `TokenAmount`, `AdaHandle`, `CnftTools`.

## Model

| member | source | states |
|---|---|---|
| Hex.FromStringToHex | functions/formatters/hex.ts:5-14 | The loop's result is `HexEncode(txt)`: the unpadded base-16 digits of every UTF-16 code unit of the text, concatenated in order |
| Hex.ToBase16 | functions/formatters/hex.ts:10 | `toString(16)` gives at least one lower-case hex digit and never a leading zero unless the number is 0. It gives one digit exactly when the number is below 16, and two digits for 0x10..0xFF |
| Hex.ToBase16Value | functions/formatters/hex.ts:10 | Reading the digits of `toString(16)` back as a hex number gives the code unit again |
| Hex.HexOfUnitsAppend | functions/formatters/hex.ts:9-11 | The output for a concatenation of code units is the concatenation of the outputs, in order |
| Hex.HexEncodeAppend | functions/formatters/hex.ts:5-14 | The encoding of a concatenation of strings is the concatenation of their encodings |
| Hex.HexEncodeRemoveAt | functions/formatters/hex.ts:10 | Taking a character in 0x10..0xFF out of a string takes exactly two digits out of its encoding |
| Hex.CodeUnits | functions/formatters/hex.ts:6-10 | `length` counts one or two UTF-16 code units per character |
| Hex.HexEncode | functions/formatters/hex.ts:5-14 | The output is empty exactly for the empty string. Otherwise it is made of lower-case hex digits only, at least one per code unit |
| Hex.CodeUnitsBmp | functions/formatters/hex.ts:6-10 | Below U+10000, `length` and `charCodeAt` see one code unit per character, with the character's own value |
| Hex.HexEncodeTwoDigits | functions/formatters/hex.ts:10 | For characters in 0x10..0xFF the output has exactly two digits per character, and its two-digit groups spell the character codes |
| Hex.HexEncodeNotInjective | functions/formatters/hex.ts:10 | Without padding, U+0001 U+0002 and U+0012 both encode to "12" |
| Hex.Groups | functions/formatters/hex.ts:2 | Every group the regular expression yields has one or two characters |
| Hex.FromHexToString | functions/formatters/hex.ts:1-3 | Whatever the decode returns was spelled by the groups of the match: there is at least one group, each is two hex digits, and their octets are the UTF-8 encoding of the result |
| Hex.FromHexToStringByGroups | functions/formatters/hex.ts:2 | For any text: the decode returns `t` exactly when the match is non-null, every group is two hex digits, and the groups' octets are the UTF-8 encoding of `t` |
| Hex.GroupsOfPlainHex | functions/formatters/hex.ts:2 | Without line terminators, the match is null only for the empty text. The groups are all two hex digits exactly when the text has even length and only hex digits, and then they give the octets of consecutive digit pairs |
| Hex.FromHexToStringSpec | functions/formatters/hex.ts:2 | Without line terminators, the decode returns `t` if and only if the text is non-empty, of even length and all hex digits, and its octets are the UTF-8 encoding of `t` |
| Hex.FromHexToStringFails | functions/formatters/hex.ts:2 | Without line terminators, the decode fails if and only if the text is empty, of odd length, holds a non-hex character, or spells octets that are not UTF-8 |
| Hex.FromHexToStringIgnoresCase | functions/formatters/hex.ts:2 | Upper-case and lower-case hex digits decode to the same result |
| Hex.LineBreaksAreSkipped | functions/formatters/hex.ts:2 | A line break inside the hex text is skipped by the match: "41\n42" decodes to "AB" |
| Hex.RoundTrip | functions/formatters/hex.ts:1-14 | Decoding the encoding of a non-empty string with characters in 0x10..0x7F gives the string back |
| Hex.RoundTripBreaks | functions/formatters/hex.ts:1-14 | The round trip fails outside that range. U+0001 encodes to the odd-length "1", and U+00E9 encodes to "e9", a lone UTF-8 lead octet. Both fail to decode |
| Uri.DecodeUriComponent | functions/formatters/hex.ts:2 | A text without `%` is returned unchanged. A decoded text is never longer than its input, and strictly shorter when the input holds a `%` |
| Uri.DecodeSound | functions/formatters/hex.ts:2 | When a string of `%XY` escapes decodes to `t`, the UTF-8 encoding of `t` is exactly the escaped octets |
| Uri.DecodeComplete | functions/formatters/hex.ts:2 | A string of `%XY` escapes (digits of either case) whose octets are the UTF-8 encoding of `t` decodes to `t` |
| Uri.DecodeOkIsWellPercented | functions/formatters/hex.ts:2 | Whatever decodes without error has every `%` followed by two hex digits |
| Uri.DecodeOctetsSound | functions/formatters/hex.ts:2 | A decoded multi-octet UTF-8 sequence re-encodes to exactly those octets, so overlong forms, surrogates and code points above U+10FFFF are refused |
| Uri.EncodeCharDecodes | functions/formatters/hex.ts:2 | The UTF-8 encoding of each code point is read back by the decoder as that code point |
| TokenAmount.FactorTextValue | functions/formatters/tokenAmount.ts:2 | The text `1` followed by `decimals` zeros denotes 10^decimals |
| TokenAmount.Factor | functions/formatters/tokenAmount.ts:2 | `Number()` of that text is 10^decimals |
| TokenAmount.FromDisplayToChain | functions/formatters/tokenAmount.ts:1-3 | The on-chain amount is the display amount times 10^decimals |
| TokenAmount.FromChainToDisplay | functions/formatters/tokenAmount.ts:5-7 | The display amount is the one whose 10^decimals multiple is the on-chain amount |
| TokenAmount.Neutral | functions/formatters/tokenAmount.ts:1-7 | With no decimals both conversions return the amount, and a zero amount gives zero both ways |
| TokenAmount.RoundTrip | functions/formatters/tokenAmount.ts:1-7 | Converting to the chain and back, or back and then to the chain, gives the amount again |
| TokenAmount.OneMoreDecimal | functions/formatters/tokenAmount.ts:1-7 | One more decimal multiplies the on-chain amount by ten and divides the display amount by ten |
| TokenAmount.ChainMonotone | functions/formatters/tokenAmount.ts:2 | For fixed decimals, the conversion to the chain keeps the order of two amounts (both directions) and the sign of each |
| TokenAmount.DisplayMonotone | functions/formatters/tokenAmount.ts:6 | For fixed decimals, the conversion for display keeps the order of two amounts (both directions) and the sign of each |
| AdaHandle.FirstIndex | functions/resolvers/adaHandle.ts:7 | The index found holds the character, and no earlier position does. It is the length when the character is absent |
| AdaHandle.RemoveFirst | functions/resolvers/adaHandle.ts:7 | A handle without `$` is left unchanged |
| AdaHandle.RemoveFirstOccurrence | functions/resolvers/adaHandle.ts:7 | `replace('$', '')` removes exactly the first `$` and keeps everything else in order |
| AdaHandle.PolicyIdIsHex | functions/resolvers/adaHandle.ts:4 | The handle policy ID is 56 lower-case hex digits |
| AdaHandle.HandleAssetId | functions/resolvers/adaHandle.ts:4-7 | The asset ID is the 56-character policy ID followed by the hex of the handle without its first `$`. It is lower-case hex digits throughout, and it is the bare policy ID exactly when the handle is empty or just `$` |
| AdaHandle.SigilIsOptional | functions/resolvers/adaHandle.ts:7 | `"$name"` and `"name"` give the same asset ID if and only if `name` holds no `$`. Otherwise the name's own first `$` is removed and the IDs differ in length |
| AdaHandle.RemovedSigilShortens | functions/resolvers/adaHandle.ts:7 | When the handle holds a `$`, removing it shortens the hex part by exactly two digits |
| AdaHandle.LaterSigilsAreEncoded | functions/resolvers/adaHandle.ts:7 | Only the leading `$` goes. Any later `$` is hex-encoded, as "24" |
| AdaHandle.RemoveFirstKeepsRange | functions/resolvers/adaHandle.ts:7 | Removing the `$` leaves only characters the handle already had |
| AdaHandle.HandleAssetIdAscii | functions/resolvers/adaHandle.ts:4-7 | For handles with characters in 0x10..0x7F, the asset ID has length 56 plus two per remaining character, and, when anything remains after the `$`, its hex part decodes back to it |
| AdaHandle.ResolveAddressFromHandle | functions/resolvers/adaHandle.ts:6-13 | The result is an error exactly when the lookup fails, and then it is the lookup's error. A non-empty address is the first holder's. The result is `''` exactly when there is no holder or the first holder's address is empty |
| AdaHandle.ResolvesToFirstHolder | functions/resolvers/adaHandle.ts:9-12 | A failed lookup is passed on. No holders gives `''`. Otherwise the result is the first holder's address, with `''` for an empty address |
| AdaHandle.LaterHoldersIgnored | functions/resolvers/adaHandle.ts:10 | Two holder lists with the same first address give the same result |
| CnftTools.CnftTools.constructor | utils/cnftTools.ts:27-29 | A new client's base URL is `https://api.cnft.tools` |
| CnftTools.RequestUri | utils/cnftTools.ts:32 | The URI is the base URL, then `/api/external/`, then the policy ID |
| CnftTools.RequestUriParts | utils/cnftTools.ts:32 | For one base URL, different policies give different URIs |
| CnftTools.SettleError | utils/cnftTools.ts:76-81 | The promise resolves to `null` exactly when the error body says "Policy ID not found". Any other error rejects with that error unchanged |
| Decimal.DigitsValueBound | utils/cnftTools.ts:69 | The value of a text of n decimal digits is below 10^n |
| CnftTools.Rank | utils/cnftTools.ts:69 | The rank, taken as the exact value of the `rarityRank` digits, is below 10^n for n digits, and an empty text gives 0 |
| CnftTools.AttributesOf | utils/cnftTools.ts:59-65 | The attributes are the record's fields minus the eight excluded ones and `__proto__`, each with the record's value. The `__proto__` assignment goes to the prototype setter, which ignores a string |
| CnftTools.CollectAttributes | utils/cnftTools.ts:46-65 | The `forEach`, one assignment per entry, builds exactly `AttributesOf` the record |
| CnftTools.Shape | utils/cnftTools.ts:67-71 | The mapped asset's ID is the policy ID followed by the record's `encodedName`, or by `undefined` when the field is missing, as the template prints it. Its rank is `Rank`, and its attributes are `AttributesOf` the record |
| CnftTools.ShapeFields | utils/cnftTools.ts:59-71 | For a record with an `encodedName`, the asset ID is `policyId` followed by it and the rank is the exact value of the `rarityRank` digits. None of the eight excluded keys and not `__proto__` is among the attributes. Every other key is copied with its value, and no key is invented |
| CnftTools.MapRecords | utils/cnftTools.ts:57-72 | The `map` fills a new array whose contents are the shaped records, in order |
| CnftTools.ShapeAll | utils/cnftTools.ts:57-72 | The map gives one asset per fetched record |
| CnftTools.StableSortedProperties | utils/cnftTools.ts:73 | The stable sort by rank has the same length, is ordered by non-decreasing rank, is a permutation of its input, and keeps the input order of the assets of each rank |
| CnftTools.InsertLast | utils/cnftTools.ts:73 | One step of the in-place sort: the prefix up to `i` becomes `Insert(a[i], prefix)`, and the rest of the array is unchanged |
| CnftTools.SortByRank | utils/cnftTools.ts:73 | The in-place sort leaves the array holding `StableSorted` of its old contents |
| CnftTools.CnftTools.GetPolicyAssets | utils/cnftTools.ts:31-83 | A failed GET settles as `SettleError` of the error. A successful GET resolves to the mapped records, stably sorted: one per record, ordered by rank, a permutation of the mapped records, with ties in fetched order |

## Left out

- Lone surrogates: a Dafny `string` holds Unicode scalar values, so a JavaScript string
  containing an unpaired surrogate code unit cannot be given to `Hex.FromStringToHex`.
- `decodeURIComponent` throws `URIError`; the model returns `Err(MalformedUri)`. No
  other exception is modelled.
- Hex.FromHexToStringSpec, Hex.FromHexToStringFails and Hex.FromHexToStringIgnoresCase:
  they require a text without line terminators. The general statement, for any text, is
  `Hex.FromHexToStringByGroups`.
- TokenAmount.FromDisplayToChain: amounts are exact reals. The `amount || 0` fallback
  and string amounts (such as `''`) are not modelled; every caller passes a number.
  IEEE-754 rounding, precision loss above 2^53, and inexact powers of ten above 10^22
  are left out.
- TokenAmount.Factor: `decimals` is a `nat`. `new Array(decimals)` throws for negative
  or fractional values, and that path is not modelled.
- AdaHandle.ResolveAddressFromHandle: the `blockfrost.assetsAddresses` call is a function
  parameter from the asset ID to the holder list or an error. Its network behaviour is
  not modelled.
- CnftTools.CnftTools.GetPolicyAssets: the axios GET, its headers and the `console.log`
  calls are left out. The GET is a function parameter from the URI to the fetched
  records or the error.
- CnftTools.Rank, Decimal.DigitsValueBound: `Number(item.rarityRank)` is taken as the
  exact value of the digits. In the source it is an IEEE-754 double. From 2^53 on,
  distinct digit texts can round to one value: "9007199254740993" and "9007199254740992"
  both give 9007199254740992. Such ranks tie under `a.rank - b.rank`, and the stable sort
  keeps them in fetched order, where the model orders them by exact value. Rounding can
  also reach 10^n, as "99999999999999999" gives 10^17, so the bound holds for the exact
  value only.
- CnftTools.CnftTools.GetPolicyAssets: non-numeric `rarityRank` values are excluded by a
  requires. They give NaN, which makes the comparator inconsistent. Ranks are taken to
  be decimal digit texts.
- CnftTools.CollectAttributes: record values are modelled as strings (the source types
  them `any`). `attributes` is a map, so the insertion order of its keys is not kept.
  Because every value is a string, an own field `__proto__` never reaches `attributes`:
  the prototype setter ignores it. An object value there, which would replace the
  prototype, is not modelled.
- The error object is reduced to the one path the code inspects,
  `error.response.data.error`. Any missing link in that path is `None`.

/**
 The part of `RetrieveEncryptedKeyFromLocalState` that works on the contents of
 Chrome's `Local State` file: find the `"app_bound_encrypted_key":"` entry, take
 its value up to the next `"`, base64-decode it, check the `APPB` header and
 return the bytes after it.
 */
module LocalState {
  import opened CppString
  import opened Base64

  /**
   `KeySize` (`chrome_decrypt.cpp` line 91): the length of the decrypted AES key.
   Only the COM part uses it, and that part is not modelled; it is kept so that
   the constants of the namespace are all stated.
   */
  const KeySize: nat := 32

  /** `KeyPrefix`: the header `'A', 'P', 'P', 'B'` in front of the encrypted key. */
  const KeyPrefix: seq<byte> := [0x41, 0x50, 0x50, 0x42]

  /** `searchKey`: the JSON member name, its colon and the opening quote of its value. */
  const SearchKey: string := "\"app_bound_encrypted_key\":\""

  datatype Option<T> = None | Some(value: T)

  /**
   Why no key was returned; each is one of the early `return {}` of
   `RetrieveEncryptedKeyFromLocalState` in `chrome_decrypt.cpp`.
   */
  datatype Error =
    | LocalStateUnavailable  // `chrome_decrypt.cpp` lines 184 and 197: no AppData path, or the file will not open
    | KeyNotFound            // `chrome_decrypt.cpp` line 211
    | MalformedKey           // `chrome_decrypt.cpp` line 222
    | InvalidHeader          // `chrome_decrypt.cpp` line 239

  datatype Result<T> = Ok(value: T) | Err(error: Error)

  /**
   The `std::equal` test of `chrome_decrypt.cpp` line 239: the decoded bytes start with `KeyPrefix`.
   The C++ compares four bytes even when fewer were decoded; here a
   shorter sequence fails the test.
   */
  predicate HasKeyPrefix(d: seq<byte>)
  {
    |d| >= |KeyPrefix| && d[..|KeyPrefix|] == KeyPrefix
  }

  /** `s.substr(pos, count)`: at most `count` characters from `pos` on. */
  function Substr(s: string, pos: nat, count: nat): string
    requires pos <= |s|
  {
    s[pos..if count <= |s| - pos then pos + count else |s|]
  }

  /** `chrome_decrypt.cpp` lines 209-253 on the file's contents, with the console output left out. */
  function ExtractEncryptedKey(content: string): Result<seq<byte>>
    requires |content| < NPos
  {
    var keyStartPos := Find(content, SearchKey, 0);
    if keyStartPos == NPos then Err(KeyNotFound)
    else
      var valueStart := keyStartPos + |SearchKey|;
      var keyEndPos := Find(content, "\"", valueStart);
      if keyEndPos == NPos then Err(MalformedKey)
      else
        FindSpec(content, SearchKey, 0);
        FindSpec(content, "\"", valueStart);
        var decoded := Decode(Substr(content, valueStart, keyEndPos - valueStart));
        if !HasKeyPrefix(decoded) then Err(InvalidHeader)
        else Ok(decoded[|KeyPrefix|..])
  }

  /**
   `RetrieveEncryptedKeyFromLocalState`, `chrome_decrypt.cpp` lines 176-254, given the file's contents,
   or `None` when they cannot be read.
   */
  function RetrieveEncryptedKey(localState: Option<string>): (r: Result<seq<byte>>)
    requires localState.Some? ==> |localState.value| < NPos
    ensures r == Err(LocalStateUnavailable) <==> localState.None?
  {
    match localState
    case None => Err(LocalStateUnavailable)
    case Some(content) => ExtractEncryptedKey(content)
  }

  // ---------------------------------------------------------------------------
  // Properties
  // ---------------------------------------------------------------------------

  /** The key is reported missing exactly when `SearchKey` occurs nowhere in the file. */
  lemma KeyNotFoundExactly(content: string)
    requires |content| < NPos
    ensures ExtractEncryptedKey(content) == Err(KeyNotFound) <==> AbsentFrom(content, SearchKey, 0)
  {
    FindSpec(content, SearchKey, 0);
  }

  /** `Find` settles on the first occurrence. */
  lemma FindIsFirst(content: string, p: nat)
    requires |content| < NPos && FirstAt(content, SearchKey, 0, p)
    ensures Find(content, SearchKey, 0) == p
  {
    FindSpec(content, SearchKey, 0);
    var r := Find(content, SearchKey, 0);
    assert r != NPos;
    assert !(r < p) && !(p < r);
  }

  /**
   With the entry first at `p`, the value is reported malformed exactly when no
   `"` follows the opening quote.
   */
  lemma MalformedKeyExactly(content: string, p: nat)
    requires |content| < NPos && FirstAt(content, SearchKey, 0, p)
    ensures ExtractEncryptedKey(content) == Err(MalformedKey) <==>
            forall j :: p + |SearchKey| <= j < |content| ==> content[j] != '"'
  {
    FindIsFirst(content, p);
    FindChar(content, '"', p + |SearchKey|);
  }

  /**
   Value selection: with the entry first at `p` and the first `"` after it at
   `e`, the value decoded is exactly `content[p + |SearchKey|..e]`, which holds no
   `"` (that much follows from the choice of `e`; `EncodingHasNoQuote` is what
   makes it no restriction on a base64 value); the result is the decoded bytes after the header, or `InvalidHeader` when
   they do not start with `APPB` (fewer than four bytes included).
   */
  lemma ValueSelected(content: string, p: nat, e: nat)
    requires |content| < NPos && FirstAt(content, SearchKey, 0, p)
    requires p + |SearchKey| <= e < |content| && content[e] == '"'
    requires forall j :: p + |SearchKey| <= j < e ==> content[j] != '"'
    ensures var v := content[p + |SearchKey|..e];
            var d := Decode(v);
            '"' !in v &&
            ExtractEncryptedKey(content) ==
              (if |d| >= 4 && d[..4] == KeyPrefix then Ok(d[4..]) else Err(InvalidHeader))
  {
    var v := content[p + |SearchKey|..e];
    FindIsFirst(content, p);
    FindChar(content, '"', p + |SearchKey|);
    assert Find(content, "\"", p + |SearchKey|) == e;
    assert forall k :: 0 <= k < |v| ==> v[k] == content[p + |SearchKey| + k];
  }

  /** A successful extraction returns four bytes fewer than were decoded. */
  lemma OkIsDecodedWithoutHeader(content: string, p: nat, e: nat)
    requires |content| < NPos && FirstAt(content, SearchKey, 0, p)
    requires p + |SearchKey| <= e < |content| && content[e] == '"'
    requires forall j :: p + |SearchKey| <= j < e ==> content[j] != '"'
    requires ExtractEncryptedKey(content).Ok?
    ensures var d := Decode(content[p + |SearchKey|..e]);
            |d| >= 4 && KeyPrefix + ExtractEncryptedKey(content).value == d
  {
    ValueSelected(content, p, e);
    var d := Decode(content[p + |SearchKey|..e]);
    assert d == d[..4] + d[4..];
  }

  /** The base64 encoding of anything, padded or not, holds no `"`. */
  lemma EncodingHasNoQuote(b: seq<byte>, padded: bool)
    ensures '"' !in Encode(b, padded)
  {
    EncodeUnpaddedAlphabet(b);
    IsBase64IsAlphabet('"');
  }

  /**
   No occurrence of `SearchKey` starts inside `pre`: none is found in
   `pre + SearchKey` before index `|pre|`.
   */
  ghost predicate NoEarlierEntry(pre: string)
  {
    forall j :: 0 <= j < |pre| ==> !OccursAt(pre + SearchKey, SearchKey, j)
  }

  /** An entry placed after `pre` is the first one in `pre + SearchKey + rest`. */
  lemma EntryIsFirst(pre: string, rest: string)
    requires NoEarlierEntry(pre)
    ensures FirstAt(pre + SearchKey + rest, SearchKey, 0, |pre|)
  {
    var content := pre + SearchKey + rest;
    var head := pre + SearchKey;
    assert content[|pre|..|pre| + |SearchKey|] == SearchKey;
    forall j | 0 <= j < |pre|
      ensures !OccursAt(content, SearchKey, j)
    {
      assert !OccursAt(head, SearchKey, j);
      assert j + |SearchKey| <= |head|;
      assert content[j..j + |SearchKey|] == head[j..j + |SearchKey|];
    }
  }

  /**
   End to end: a `Local State` whose first entry holds the base64 encoding
   (padded or not) of `KeyPrefix` followed by `key`, closed by `"`, yields `key`.
   */
  lemma ExtractsEncodedKey(pre: string, key: seq<byte>, padded: bool, post: string)
    requires NoEarlierEntry(pre)
    requires |pre + SearchKey + Encode(KeyPrefix + key, padded) + "\"" + post| < NPos
    ensures ExtractEncryptedKey(pre + SearchKey + Encode(KeyPrefix + key, padded) + "\"" + post) == Ok(key)
  {
    var v := Encode(KeyPrefix + key, padded);
    var content := pre + SearchKey + v + "\"" + post;
    var p, e := |pre|, |pre| + |SearchKey| + |v|;
    assert content == pre + SearchKey + (v + "\"" + post);
    EntryIsFirst(pre, v + "\"" + post);
    EncodingHasNoQuote(KeyPrefix + key, padded);
    assert content[p + |SearchKey|..e] == v;
    assert content[e] == '"';
    forall j | p + |SearchKey| <= j < e
      ensures content[j] != '"'
    {
      assert content[j] == v[j - p - |SearchKey|];
    }
    ValueSelected(content, p, e);
    RoundTrip(KeyPrefix + key, padded);
    assert (KeyPrefix + key)[..4] == KeyPrefix && (KeyPrefix + key)[4..] == key;
  }
}

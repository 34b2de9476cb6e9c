/**
 The lenient base64 decoder of `ChromeAppBound`: the alphabet of section 4 of
 RFC 4648, decoding that stops silently at the first `=` or character outside the
 alphabet, full groups of four characters packed into three bytes, and a trailing
 group of one, two or three characters flushed as zero, one or two bytes.

 `Decode` is the specification, in two stages: each consumed character becomes
 the value `Base64Chars.find` gives for it (a sextet), and the sextets are packed
 group by group. `Base64Decode` is the loop of `Base64Decode` in `chrome_decrypt.cpp`
 over its fixed four- and three-byte buffers, proved equal to `Decode`.
 */
module Base64 {
  import opened CppString

  /** The 64-character alphabet, in index order. */
  const Base64Chars: string :=
    "ABCDEFGHIJKLMNOPQRSTUVWXYZ" +
    "abcdefghijklmnopqrstuvwxyz" +
    "0123456789+/"

  /** `isalnum(c) || c == '+' || c == '/'`, with `isalnum` as in the C locale. */
  predicate IsBase64(c: char)
  {
    ('0' <= c <= '9') || ('A' <= c <= 'Z') || ('a' <= c <= 'z') || c == '+' || c == '/'
  }

  /** The decoding loop goes on past `c`: it is neither `=` nor outside the alphabet. */
  predicate Continues(c: char)
  {
    c != '=' && IsBase64(c)
  }

  /** The character at index `k` of the alphabet, by ranges. */
  function AlphabetChar(k: nat): char
    requires k < 64
  {
    if k < 26 then ('A' as int + k) as char
    else if k < 52 then ('a' as int + k - 26) as char
    else if k < 62 then ('0' as int + k - 52) as char
    else if k == 62 then '+'
    else '/'
  }

  lemma AlphabetLayout()
    ensures |Base64Chars| == 64
    ensures forall k :: 0 <= k < 64 ==> Base64Chars[k] == AlphabetChar(k)
  {
  }

  lemma AlphabetInjective(i: nat, k: nat)
    requires i < 64 && k < 64 && AlphabetChar(i) == AlphabetChar(k)
    ensures i == k
  {
  }

  /** Where `c` stands in the alphabet, by ranges, or `NPos` when it is not in it. */
  function RangeIndex(c: char): (r: nat)
    ensures r == NPos || (r < 64 && AlphabetChar(r) == c)
    ensures r < 64 <==> IsBase64(c)
  {
    if 'A' <= c <= 'Z' then c as int - 'A' as int
    else if 'a' <= c <= 'z' then c as int - 'a' as int + 26
    else if '0' <= c <= '9' then c as int - '0' as int + 52
    else if c == '+' then 62
    else if c == '/' then 63
    else NPos
  }

  /** The test of `IsBase64` (`chrome_decrypt.cpp` line 101) accepts exactly the characters of the alphabet. */
  lemma IsBase64IsAlphabet(c: char)
    ensures IsBase64(c) <==> c in Base64Chars
  {
    AlphabetLayout();
    if IsBase64(c) {
      var k := RangeIndex(c);
      assert Base64Chars[k] == c;
    }
    if c in Base64Chars {
      var k :| 0 <= k < |Base64Chars| && Base64Chars[k] == c;
      assert AlphabetChar(k) == c;
    }
  }

  /**
   `Base64Chars.find(c)` finds `c` where `RangeIndex` puts it, and returns `npos`
   for every character outside the alphabet.
   */
  lemma FindInAlphabet(c: char)
    ensures |Base64Chars| < NPos
    ensures Find(Base64Chars, [c], 0) == RangeIndex(c)
  {
    AlphabetLayout();
    IsBase64IsAlphabet(c);
    FindChar(Base64Chars, c, 0);
    var r := Find(Base64Chars, [c], 0);
    if IsBase64(c) {
      assert r != NPos;
      AlphabetInjective(r, RangeIndex(c));
    } else {
      assert r == NPos;
    }
  }

  /** A `uint8_t` slot passed back where a `char` is expected. */
  function ByteChar(b: byte): char
  {
    b as int as char
  }

  /**
   The value that `chrome_decrypt.cpp` lines 117 and 136 store in a `uint8_t` slot holding `c`:
   `Base64Chars.find(c)` narrowed (see `SextetIsFind`).
   */
  function Sextet(c: char): byte
  {
    Narrow(RangeIndex(c))
  }

  lemma SextetIsFind(c: char)
    ensures |Base64Chars| < NPos
    ensures Sextet(c) == Narrow(Find(Base64Chars, [c], 0))
  {
    FindInAlphabet(c);
  }

  /** What `chrome_decrypt.cpp` lines 117 and 136 store in a slot holding `b`: `Base64Chars.find(b)`, narrowed. */
  function LookUp(b: byte): byte
  {
    Narrow(Find(Base64Chars, [ByteChar(b)], 0))
  }

  /** The look-up gives the sextet of the slot's character. */
  lemma LookUpIsSextet(b: byte)
    ensures LookUp(b) == Sextet(ByteChar(b))
  {
    SextetIsFind(ByteChar(b));
  }

  /** What a partial group's unused slots hold after `chrome_decrypt.cpp` lines 132-136. */
  const Filler: byte := 0xFF

  /** The unused slots are set to `'\0'`, and `find('\0')` is `npos`, narrowed to 0xFF. */
  lemma FillerIsNarrowedNPos()
    ensures Sextet('\0') == Narrow(NPos) == Filler
  {
  }

  /** The sextets of a run of characters. */
  function Sextets(p: string): (w: seq<byte>)
    ensures |w| == |p|
  {
    if |p| == 0 then [] else [Sextet(p[0])] + Sextets(p[1..])
  }

  /** The sextet at index `k` is that of the character at index `k`. */
  lemma {:induction false} SextetsAt(p: string, k: nat)
    requires k < |p|
    ensures Sextets(p)[k] == Sextet(p[k])
    decreases k
  {
    if k > 0 {
      SextetsAt(p[1..], k - 1);
    }
  }

  /** The sextets of a concatenation are those of its parts, concatenated. */
  lemma {:induction false} SextetsAppend(p: string, q: string)
    ensures Sextets(p + q) == Sextets(p) + Sextets(q)
    decreases |p|
  {
    if |p| == 0 {
      assert p + q == q;
    } else {
      assert (p + q)[1..] == p[1..] + q;
      SextetsAppend(p[1..], q);
    }
  }

  /**
   `chrome_decrypt.cpp` lines 119-121: four sextets, promoted to `int`, packed into three bytes, each
   narrowed back into a `uint8_t`. The bit operations are written as the
   arithmetic they perform on a value `x` below 256: `x << k` is `x * 2^k`,
   `(x & 0x30) >> 4` is `(x / 16) % 4`, `x & 0xF` is `x % 16`,
   `(x & 0x3C) >> 2` is `(x / 4) % 16` and `x & 0x3` is `x % 4`.
   */
  function Pack(a: byte, b: byte, c: byte, d: byte): seq<byte>
  {
    [Narrow(a as int * 4 + (b as int / 16) % 4),
     Narrow((b as int % 16) * 16 + (c as int / 4) % 16),
     Narrow((c as int % 4) * 64 + d as int)]
  }

  /** Slot `j` of a group of sextets: its own value, or the filler. */
  function SlotValue(w: seq<byte>, j: nat): byte
  {
    if j < |w| then w[j] else Filler
  }

  /** The three bytes packed from the four slots of a group. */
  function PackGroup(w: seq<byte>): seq<byte>
  {
    Pack(SlotValue(w, 0), SlotValue(w, 1), SlotValue(w, 2), SlotValue(w, 3))
  }

  /**
   The bytes decoded from a run of sextets: three per full group, then the first
   `|g| - 1` bytes of a trailing partial group `g`.
   */
  function DecodeSextets(w: seq<byte>): seq<byte>
    decreases |w|
  {
    if |w| >= 4 then PackGroup(w[..4]) + DecodeSextets(w[4..])
    else if |w| == 0 then []
    else PackGroup(w)[..|w| - 1]
  }

  /** The length of the prefix of `s` that the decoding loop consumes. */
  function ValidPrefixLength(s: string): (n: nat)
    ensures n <= |s|
    ensures forall k :: 0 <= k < n ==> Continues(s[k])
    ensures n == |s| || !Continues(s[n])
  {
    if |s| == 0 || !Continues(s[0]) then 0 else 1 + ValidPrefixLength(s[1..])
  }

  /** The bytes decoded from the first `n` characters of `s`. */
  function DecodedPrefix(s: string, n: nat): seq<byte>
    requires n <= |s|
  {
    DecodeSextets(Sextets(s[..n]))
  }

  /** What `Base64Decode(s)` returns. */
  function Decode(s: string): seq<byte>
  {
    DecodeSextets(Sextets(s[..ValidPrefixLength(s)]))
  }

  /**
   `chrome_decrypt.cpp` lines 116-117, repeated at 135-136: each of the four slots is replaced by the
   value `Base64Chars.find` gives for the character it holds.
   */
  method LookUpSlots(charArray4: array<byte>)
    requires charArray4.Length == 4
    modifies charArray4
    ensures forall m :: 0 <= m < 4 ==> charArray4[m] == LookUp(old(charArray4[m]))
  {
    for k := 0 to 4
      invariant forall m :: 0 <= m < k ==> charArray4[m] == LookUp(old(charArray4[m]))
      invariant forall m :: k <= m < 4 ==> charArray4[m] == old(charArray4[m])
    {
      charArray4[k] := Narrow(Find(Base64Chars, [ByteChar(charArray4[k])], 0));
    }
  }

  /** `chrome_decrypt.cpp` lines 119-121, repeated at 138-140: the four slots packed into three bytes. */
  method PackSlots(charArray4: array<byte>, charArray3: array<byte>)
    requires charArray4.Length == 4 && charArray3.Length == 3
    modifies charArray3
    ensures charArray3[..] == Pack(charArray4[0], charArray4[1], charArray4[2], charArray4[3])
  {
    var a, b, c, d := charArray4[0] as int, charArray4[1] as int, charArray4[2] as int, charArray4[3] as int;
    charArray3[0] := Narrow(a * 4 + (b / 16) % 4);
    charArray3[1] := Narrow((b % 16) * 16 + (c / 4) % 16);
    charArray3[2] := Narrow((c % 4) * 64 + d);
  }

  /**
   A group `g` read into the slots, with `'\0'` in the slots past it, is looked
   up and packed into the three bytes of `PackGroup` over its sextets.
   */
  method LookUpAndPack(charArray4: array<byte>, charArray3: array<byte>, ghost g: string)
    requires charArray4.Length == 4 && charArray3.Length == 3 && charArray4 != charArray3
    requires |g| <= 4
    requires forall m :: 0 <= m < |g| ==> charArray4[m] as int == g[m] as int
    requires forall m :: |g| <= m < 4 ==> charArray4[m] == 0
    modifies charArray4, charArray3
    ensures forall m :: 0 <= m < 4 ==> charArray4[m] == SlotValue(Sextets(g), m)
    ensures charArray3[..] == PackGroup(Sextets(g))
  {
    ghost var raw := charArray4[..];
    LookUpSlots(charArray4);
    PackSlots(charArray4, charArray3);
    LookedUpSlots(g, raw, charArray4[..]);
  }

  /** `chrome_decrypt.cpp` lines 132-133: the slots from `from` on are set to `'\0'`. */
  method ClearFrom(charArray4: array<byte>, from: nat)
    requires charArray4.Length == 4 && from <= 4
    modifies charArray4
    ensures charArray4[..from] == old(charArray4[..from])
    ensures forall m :: from <= m < 4 ==> charArray4[m] == 0
  {
    for j := from to 4
      invariant charArray4[..from] == old(charArray4[..from])
      invariant forall m :: from <= m < j ==> charArray4[m] == 0
    {
      charArray4[j] := 0;
    }
  }

  /** `chrome_decrypt.cpp` lines 123-124 and 142-143: the first `n` packed bytes pushed onto `ret`. */
  method PushBytes(ret: seq<byte>, charArray3: array<byte>, n: nat) returns (r: seq<byte>)
    requires n <= charArray3.Length
    ensures r == ret + charArray3[..n]
  {
    r := ret;
    for j := 0 to n
      invariant r == ret + charArray3[..j]
    {
      r := r + [charArray3[j]];
    }
  }

  /**
   `chrome_decrypt.cpp` lines 114-126: the full group `s[4 * n..4 * n + 4]`, read into the slots, is
   looked up, packed and pushed onto `ret`, which held the bytes of the `n`
   groups before it.
   */
  method DecodeFullGroup(charArray4: array<byte>, charArray3: array<byte>, ret: seq<byte>,
                         ghost s: string, ghost n: nat) returns (r: seq<byte>)
    requires charArray4.Length == 4 && charArray3.Length == 3 && charArray4 != charArray3
    requires 4 * n + 4 <= |s|
    requires forall k :: 0 <= k < 4 ==> charArray4[k] as int == s[4 * n + k] as int
    requires ret == DecodedPrefix(s, 4 * n)
    modifies charArray4, charArray3
    ensures forall m :: 0 <= m < 4 ==> charArray4[m] == Sextet(s[4 * n + m])
    ensures charArray3[..] == PackGroup(Sextets(s[4 * n..4 * n + 4]))
    ensures r == DecodedPrefix(s, 4 * (n + 1))
  {
    ghost var g := s[4 * n..4 * n + 4];
    LookUpAndPack(charArray4, charArray3, g);
    r := PushBytes(ret, charArray3, 3);
    FullGroupBytes(s, n, ret, charArray3[..]);
    forall m | 0 <= m < 4
      ensures charArray4[m] == Sextet(s[4 * n + m])
    {
      SextetsAt(g, m);
    }
  }

  /**
   `chrome_decrypt.cpp` lines 129-145: the last group `s[4 * n..4 * n + i]` of one to three characters:
   the slots past it are cleared, all four are looked up and packed, and `i - 1`
   bytes are pushed.
   */
  method DecodeLastGroup(charArray4: array<byte>, charArray3: array<byte>, ret: seq<byte>,
                         ghost s: string, i: nat, ghost n: nat) returns (r: seq<byte>)
    requires charArray4.Length == 4 && charArray3.Length == 3 && charArray4 != charArray3
    requires 0 < i < 4 && 4 * n + i <= |s|
    requires forall k :: 0 <= k < i ==> charArray4[k] as int == s[4 * n + k] as int
    requires ret == DecodedPrefix(s, 4 * n)
    modifies charArray4, charArray3
    ensures forall m :: 0 <= m < 4 ==> charArray4[m] == SlotValue(Sextets(s[4 * n..4 * n + i]), m)
    ensures charArray3[..] == PackGroup(Sextets(s[4 * n..4 * n + i]))
    ensures r == DecodedPrefix(s, 4 * n + i)
  {
    ClearFrom(charArray4, i);
    LookUpAndPack(charArray4, charArray3, s[4 * n..4 * n + i]);
    r := PushBytes(ret, charArray3, i - 1);
    LastGroupBytes(s, n, i, ret, charArray3[..]);
  }

  /**
   `chrome_decrypt.cpp` lines 113-126: the character `c` at `s[inPos]` goes into slot `i`, and a group thus
   completed is decoded and the slots start over.
   */
  method ReadChar(charArray4: array<byte>, charArray3: array<byte>, ret: seq<byte>,
                  ghost s: string, c: char, i: nat, ghost inPos: nat, ghost groups: nat)
      returns (i': nat, r: seq<byte>, ghost groups': nat)
    requires charArray4.Length == 4 && charArray3.Length == 3 && charArray4 != charArray3
    requires i < 4 && inPos == 4 * groups + i && inPos < |s| && c == s[inPos] && Continues(c)
    requires forall k :: 0 <= k < i ==> charArray4[k] as int == s[4 * groups + k] as int
    requires ret == DecodedPrefix(s, 4 * groups)
    modifies charArray4, charArray3
    ensures i' < 4 && inPos + 1 == 4 * groups' + i'
    ensures forall k :: 0 <= k < i' ==> charArray4[k] as int == s[4 * groups' + k] as int
    ensures r == DecodedPrefix(s, 4 * groups')
    ensures i' != 0 ==> charArray4[..] == old(charArray4[..])[i := c as int as byte] && unchanged(charArray3)
    ensures i' == 0 ==> groups' == groups + 1 &&
                        (forall m :: 0 <= m < 4 ==> charArray4[m] == Sextet(s[4 * groups + m])) &&
                        charArray3[..] == PackGroup(Sextets(s[4 * groups..4 * groups + 4]))
  {
    // the loop guard admits only ASCII characters, whose value a `uint8_t` keeps
    charArray4[i] := c as int as byte;
    i', r, groups' := i + 1, ret, groups;
    if i' == 4 {
      r := DecodeFullGroup(charArray4, charArray3, ret, s, groups);
      i', groups' := 0, groups + 1;
    }
  }

  /** `Base64Decode`, `chrome_decrypt.cpp` lines 104-152, with the console output left out. */
  method Base64Decode(encodedString: string) returns (decodedData: seq<byte>)
    ensures decodedData == Decode(encodedString)
  {
    var inLen := |encodedString|;
    var i, inPos := 0, 0;
    var charArray4 := new byte[4];
    var charArray3 := new byte[3];
    decodedData := [];

    // `groups` full groups have been decoded; the `i` characters read since sit in the slots
    ghost var groups: nat := 0;
    while inLen != 0 && encodedString[inPos] != '=' && IsBase64(encodedString[inPos])
      invariant 0 <= inPos <= |encodedString| && inLen == |encodedString| - inPos
      invariant 0 <= i < 4 && inPos == 4 * groups + i
      invariant forall k :: 0 <= k < inPos ==> Continues(encodedString[k])
      invariant forall k :: 0 <= k < i ==> charArray4[k] as int == encodedString[4 * groups + k] as int
      invariant decodedData == DecodedPrefix(encodedString, 4 * groups)
    {
      inLen := inLen - 1;
      i, decodedData, groups := ReadChar(charArray4, charArray3, decodedData, encodedString, encodedString[inPos], i, inPos, groups);
      inPos := inPos + 1;
    }

    if i != 0 {
      decodedData := DecodeLastGroup(charArray4, charArray3, decodedData, encodedString, i, groups);
    }
    ValidPrefixUnique(encodedString, inPos);
  }

  /**
   After the look-up, the slots hold the sextets of the group's characters and,
   past them, the sextet of the `'\0'` filler.
   */
  lemma LookedUpSlots(g: string, raw: seq<byte>, looked: seq<byte>)
    requires |g| <= 4 && |raw| == 4 && |looked| == 4
    requires forall m :: 0 <= m < |g| ==> raw[m] as int == g[m] as int
    requires forall m :: |g| <= m < 4 ==> raw[m] == 0
    requires forall m :: 0 <= m < 4 ==> looked[m] == LookUp(raw[m])
    ensures forall m :: 0 <= m < 4 ==> looked[m] == SlotValue(Sextets(g), m)
  {
    forall m | 0 <= m < 4 ensures looked[m] == SlotValue(Sextets(g), m) {
      LookedUpSlot(g, m, raw[m], looked[m]);
    }
  }

  /** One slot of `LookedUpSlots`. */
  lemma LookedUpSlot(g: string, m: nat, raw: byte, looked: byte)
    requires |g| <= 4 && m < 4
    requires m < |g| ==> raw as int == g[m] as int
    requires |g| <= m ==> raw == 0
    requires looked == LookUp(raw)
    ensures looked == SlotValue(Sextets(g), m)
  {
    LookUpIsSextet(raw);
    if m < |g| {
      assert ByteChar(raw) == g[m];
      SextetsAt(g, m);
    } else {
      FillerIsNarrowedNPos();
    }
  }

  /** The three bytes of the full group after `n` groups extend the decoding by that group. */
  lemma FullGroupBytes(s: string, n: nat, ret: seq<byte>, packed: seq<byte>)
    requires 4 * n + 4 <= |s| && ret == DecodedPrefix(s, 4 * n)
    requires packed == PackGroup(Sextets(s[4 * n..4 * n + 4]))
    ensures ret + packed[..3] == DecodedPrefix(s, 4 * (n + 1))
  {
    var g := s[4 * n..4 * n + 4];
    SextetsOfSplit(s, 4 * n, 4 * n + 4, g);
    DecodeSextetsStep(Sextets(s[..4 * n]), Sextets(g), n);
  }

  /** The first `i - 1` bytes of a trailing group of `i` characters complete the decoding. */
  lemma LastGroupBytes(s: string, n: nat, i: nat, ret: seq<byte>, packed: seq<byte>)
    requires 0 < i < 4 && 4 * n + i <= |s| && ret == DecodedPrefix(s, 4 * n)
    requires packed == PackGroup(Sextets(s[4 * n..4 * n + i]))
    ensures ret + packed[..i - 1] == DecodedPrefix(s, 4 * n + i)
  {
    var g := s[4 * n..4 * n + i];
    SextetsOfSplit(s, 4 * n, 4 * n + i, g);
    DecodeSextetsTail(Sextets(s[..4 * n]), Sextets(g), n);
  }

  /** The sextets of a prefix are those of a shorter prefix followed by those of the slice between. */
  lemma SextetsOfSplit(s: string, m: nat, n: nat, q: string)
    requires m <= n <= |s| && q == s[m..n]
    ensures Sextets(s[..n]) == Sextets(s[..m]) + Sextets(q)
  {
    assert s[..n] == s[..m] + q;
    SextetsAppend(s[..m], q);
  }

  /** Decoding whole groups and then the rest is decoding the concatenation. */
  lemma {:induction false} DecodeSextetsAppend(u: seq<byte>, v: seq<byte>, n: nat)
    requires |u| == 4 * n
    ensures DecodeSextets(u + v) == DecodeSextets(u) + DecodeSextets(v)
    decreases |u|
  {
    if |u| == 0 {
      assert u + v == v;
    } else {
      assert (u + v)[4..] == u[4..] + v;
      assert (u + v)[..4] == u[..4];
      DecodeSextetsAppend(u[4..], v, n - 1);
    }
  }

  /** A full group just read extends the decoded bytes by its three bytes. */
  lemma DecodeSextetsStep(u: seq<byte>, g: seq<byte>, n: nat)
    requires |u| == 4 * n && |g| == 4
    ensures DecodeSextets(u + g) == DecodeSextets(u) + PackGroup(g)
  {
    assert g[..4] == g && g[4..] == [];
    DecodeSextetsAppend(u, g, n);
  }

  /** A trailing partial group `t` adds the first `|t| - 1` of its packed bytes. */
  lemma DecodeSextetsTail(u: seq<byte>, t: seq<byte>, n: nat)
    requires |u| == 4 * n && |t| < 4
    ensures DecodeSextets(u + t) ==
            DecodeSextets(u) + (if |t| == 0 then [] else PackGroup(t)[..|t| - 1])
  {
    DecodeSextetsAppend(u, t, n);
  }

  /** The loop stops at `n` exactly when every character before `n` continues and `s[n]` does not. */
  lemma ValidPrefixUnique(s: string, n: nat)
    requires n <= |s|
    requires forall k :: 0 <= k < n ==> Continues(s[k])
    requires n == |s| || !Continues(s[n])
    ensures ValidPrefixLength(s) == n
  {
    var m := ValidPrefixLength(s);
  }

  // ---------------------------------------------------------------------------
  // Properties of the decoder
  // ---------------------------------------------------------------------------

  /** A character continues the loop exactly when it is one of the 64 alphabet characters. */
  lemma ContinuesIsAlphabet(c: char)
    ensures Continues(c) <==> c in Base64Chars
  {
    IsBase64IsAlphabet(c);
    IsBase64IsAlphabet('=');
  }

  /**
   Truncation: when `s[..n]` is the longest prefix of `s` made of alphabet
   characters, decoding `s` is decoding `s[..n]`, which packs the sextets of
   exactly those characters.
   */
  lemma TruncatesAtValidPrefix(s: string, n: nat)
    requires n <= |s|
    requires forall k :: 0 <= k < n ==> s[k] in Base64Chars
    requires n == |s| || s[n] !in Base64Chars
    ensures Decode(s) == Decode(s[..n]) == DecodeSextets(Sextets(s[..n]))
  {
    forall k | 0 <= k < n ensures Continues(s[k]) {
      ContinuesIsAlphabet(s[k]);
    }
    if n < |s| {
      ContinuesIsAlphabet(s[n]);
    }
    ValidPrefixUnique(s, n);
    var p := s[..n];
    assert forall k :: 0 <= k < n ==> p[k] == s[k];
    ValidPrefixUnique(p, n);
    assert p[..n] == p;
  }

  /** Whatever follows the first `=` or non-alphabet character is never looked at. */
  lemma StopsAtFirstInvalid(p: string, c: char, rest: string)
    requires forall k :: 0 <= k < |p| ==> p[k] in Base64Chars
    requires c !in Base64Chars
    ensures Decode(p + [c] + rest) == Decode(p)
  {
    var s := p + [c] + rest;
    assert s[..|p|] == p;
    assert s[|p|] == c;
    TruncatesAtValidPrefix(s, |p|);
  }

  /** Bytes produced from `n` characters: three per full group, `n % 4 - 1` for a partial one. */
  function DecodedSize(n: nat): nat
  {
    3 * (n / 4) + (if n % 4 == 0 then 0 else n % 4 - 1)
  }

  lemma {:induction false} DecodeSextetsLength(w: seq<byte>)
    ensures |DecodeSextets(w)| == DecodedSize(|w|)
    decreases |w|
  {
    if |w| >= 4 {
      DecodeSextetsLength(w[4..]);
    }
  }

  /**
   Output length: with `n` the length of the consumed prefix, decoding yields
   `3 * (n / 4)` bytes plus 0, 1 or 2 for a trailing group of 1, 2 or 3 characters.
   */
  lemma DecodedLength(s: string)
    ensures |Decode(s)| == DecodedSize(ValidPrefixLength(s))
  {
    DecodeSextetsLength(Sextets(s[..ValidPrefixLength(s)]));
  }

  /** Bytes `3k .. 3k + 2` of the decoded sextets come from sextets `4k .. 4k + 3`. */
  lemma {:induction false} DecodeSextetsAt(w: seq<byte>, k: nat)
    requires 4 * k + 4 <= |w|
    ensures 3 * k + 3 <= |DecodeSextets(w)|
    ensures DecodeSextets(w)[3 * k..3 * k + 3] == Pack(w[4 * k], w[4 * k + 1], w[4 * k + 2], w[4 * k + 3])
    decreases k
  {
    DecodeSextetsLength(w);
    var d := DecodeSextets(w);
    assert d == PackGroup(w[..4]) + DecodeSextets(w[4..]);
    if k == 0 {
      assert d[..3] == PackGroup(w[..4]);
    } else {
      DecodeSextetsAt(w[4..], k - 1);
      assert d[3 * k..3 * k + 3] == DecodeSextets(w[4..])[3 * (k - 1)..3 * (k - 1) + 3];
    }
  }

  /**
   Groups are packed in input order: bytes `3k .. 3k + 2` of the output come from
   the sextets of characters `4k .. 4k + 3` of the input.
   */
  lemma GroupsInOrder(s: string, k: nat)
    requires 4 * k + 4 <= ValidPrefixLength(s)
    ensures 3 * k + 3 <= |Decode(s)|
    ensures Decode(s)[3 * k..3 * k + 3] ==
            Pack(Sextet(s[4 * k]), Sextet(s[4 * k + 1]), Sextet(s[4 * k + 2]), Sextet(s[4 * k + 3]))
  {
    var n := ValidPrefixLength(s);
    assert Decode(s) == DecodedPrefix(s, n);
    DecodedPrefixAt(s, n, k);
  }

  /** Group `k` of the decoding of the first `n` characters of `s`. */
  lemma DecodedPrefixAt(s: string, n: nat, k: nat)
    requires 4 * k + 4 <= n <= |s|
    ensures 3 * k + 3 <= |DecodedPrefix(s, n)|
    ensures DecodedPrefix(s, n)[3 * k..3 * k + 3] ==
            Pack(Sextet(s[4 * k]), Sextet(s[4 * k + 1]), Sextet(s[4 * k + 2]), Sextet(s[4 * k + 3]))
  {
    var p := s[..n];
    DecodeSextetsAt(Sextets(p), k);
    SextetsAt(p, 4 * k);
    SextetsAt(p, 4 * k + 1);
    SextetsAt(p, 4 * k + 2);
    SextetsAt(p, 4 * k + 3);
  }

  /**
   The filler never leaks: for a trailing group of one to three sextets, whatever
   values stand in the unused slots, the bytes emitted are the same.
   */
  lemma PartialGroupIgnoresFiller(w: seq<byte>, fill: seq<byte>)
    requires 0 < |w| < 4 && |fill| == 4 - |w|
    ensures var v := w + fill;
            DecodeSextets(w) == Pack(v[0], v[1], v[2], v[3])[..|w| - 1]
  {
    var v := w + fill;
    var a, b, c := SlotValue(w, 0), SlotValue(w, 1), SlotValue(w, 2);
    assert DecodeSextets(w) == Pack(a, b, c, Filler)[..|w| - 1];
    if |w| == 2 {
      assert v[0] == a && v[1] == b;
      PackFirstByte(a, b, c, Filler, v[2], v[3]);
    } else if |w| == 3 {
      assert v[0] == a && v[1] == b && v[2] == c;
      PackFirstTwoBytes(a, b, c, Filler, v[3]);
    }
  }

  /** The first packed byte depends on the first two slots only. */
  lemma PackFirstByte(a: byte, b: byte, c: byte, d: byte, c': byte, d': byte)
    ensures Pack(a, b, c, d)[..1] == Pack(a, b, c', d')[..1]
  {
  }

  /** The first two packed bytes depend on the first three slots only. */
  lemma PackFirstTwoBytes(a: byte, b: byte, c: byte, d: byte, d': byte)
    ensures Pack(a, b, c, d)[..2] == Pack(a, b, c, d')[..2]
  {
  }

  // ---------------------------------------------------------------------------
  // Reference encoder: section 4 of RFC 4648
  // ---------------------------------------------------------------------------

  /** The character of sextet `e` in the alphabet of Table 1 of RFC 4648. */
  function EncodeSextet(e: byte): char
    requires e < 64
  {
    AlphabetChar(e as int)
  }

  /** The four six-bit fields of the 24 bits of `x y z`, most significant first. */
  function Fields(x: byte, y: byte, z: byte): seq<byte>
  {
    [(x as int / 4) as byte, ((x as int % 4) * 16 + y as int / 16) as byte,
     ((y as int % 16) * 4 + z as int / 64) as byte, (z as int % 64) as byte]
  }

  /** Four characters for the 24 bits of `x y z`. */
  function Quantum(x: byte, y: byte, z: byte): string
  {
    var f := Fields(x, y, z);
    [EncodeSextet(f[0]), EncodeSextet(f[1]), EncodeSextet(f[2]), EncodeSextet(f[3])]
  }

  /** Base64 without padding: a final one or two bytes give two or three characters. */
  function EncodeUnpadded(b: seq<byte>): string
    decreases |b|
  {
    if |b| >= 3 then Quantum(b[0], b[1], b[2]) + EncodeUnpadded(b[3..])
    else if |b| == 2 then Quantum(b[0], b[1], 0)[..3]
    else if |b| == 1 then Quantum(b[0], 0, 0)[..2]
    else []
  }

  /** Base64, with `=` padding up to a multiple of four characters when `padded`. */
  function Encode(b: seq<byte>, padded: bool): string
  {
    EncodeUnpadded(b) +
    (if !padded || |b| % 3 == 0 then "" else if |b| % 3 == 1 then "==" else "=")
  }

  lemma {:induction false} EncodeUnpaddedAlphabet(b: seq<byte>)
    ensures forall k :: 0 <= k < |EncodeUnpadded(b)| ==> EncodeUnpadded(b)[k] in Base64Chars
    decreases |b|
  {
    AlphabetLayout();
    if |b| >= 3 {
      EncodeUnpaddedAlphabet(b[3..]);
    }
  }

  /** Looking up the alphabet character of sextet `e` gives back `e`. */
  lemma SextetOfEncode(e: byte)
    requires e < 64
    ensures Sextet(EncodeSextet(e)) == e
  {
    AlphabetLayout();
  }

  /** The sextets of a quantum are the four fields of its three bytes. */
  lemma QuantumSextets(x: byte, y: byte, z: byte)
    ensures Sextets(Quantum(x, y, z)) == Fields(x, y, z)
  {
    var q, f := Quantum(x, y, z), Fields(x, y, z);
    forall k | 0 <= k < 4 ensures Sextets(q)[k] == f[k] {
      SextetsAt(q, k);
      SextetOfEncode(f[k]);
    }
  }

  /** Division by 4 or 16 of a value written as `q * m + r`, with `0 <= r < m`. */
  lemma DivMod(q: int, r: int, m: int)
    requires (m == 4 || m == 16) && 0 <= r < m
    ensures (q * m + r) / m == q && (q * m + r) % m == r
  {
  }

  lemma PackFirst(x: int, y: int, a: int, b: int)
    requires 0 <= x < 256 && 0 <= y < 256
    requires a == x / 4 && b == (x % 4) * 16 + y / 16
    ensures a * 4 + (b / 16) % 4 == x
  {
    DivMod(x % 4, y / 16, 16);
  }

  lemma PackSecond(x: int, y: int, z: int, b: int, c: int)
    requires 0 <= x < 256 && 0 <= y < 256 && 0 <= z < 256
    requires b == (x % 4) * 16 + y / 16 && c == (y % 16) * 4 + z / 64
    ensures (b % 16) * 16 + (c / 4) % 16 == y
  {
    DivMod(x % 4, y / 16, 16);
    DivMod(y % 16, z / 64, 4);
  }

  lemma PackThird(y: int, z: int, c: int, d: int)
    requires 0 <= y < 256 && 0 <= z < 256
    requires c == (y % 16) * 4 + z / 64 && d == z % 64
    ensures (c % 4) * 64 + d == z
  {
    DivMod(y % 16, z / 64, 4);
  }

  /** `Pack` gives `x y z` when the sums it narrows are already those bytes. */
  lemma PackNoCarry(a: byte, b: byte, c: byte, d: byte, x: byte, y: byte, z: byte)
    requires a as int * 4 + (b as int / 16) % 4 == x as int
    requires (b as int % 16) * 16 + (c as int / 4) % 16 == y as int
    requires (c as int % 4) * 64 + d as int == z as int
    ensures Pack(a, b, c, d) == [x, y, z]
  {
    NarrowByte(x);
    NarrowByte(y);
    NarrowByte(z);
  }

  lemma NarrowByte(x: byte)
    ensures Narrow(x as int) == x
  {
  }

  /** Packing the four fields of three bytes gives the three bytes back. */
  lemma PackFields(x: byte, y: byte, z: byte)
    ensures var f := Fields(x, y, z); Pack(f[0], f[1], f[2], f[3]) == [x, y, z]
  {
    var f := Fields(x, y, z);
    PackFirst(x as int, y as int, f[0] as int, f[1] as int);
    PackSecond(x as int, y as int, z as int, f[1] as int, f[2] as int);
    PackThird(y as int, z as int, f[2] as int, f[3] as int);
    PackNoCarry(f[0], f[1], f[2], f[3], x, y, z);
  }

  /** The sextets of a prefix are a prefix of the sextets. */
  lemma SextetsPrefix(p: string, n: nat)
    requires n <= |p|
    ensures Sextets(p[..n]) == Sextets(p)[..n]
  {
    assert p == p[..n] + p[n..];
    SextetsAppend(p[..n], p[n..]);
  }

  /** A full quantum decodes to its three bytes. */
  lemma QuantumDecodes(x: byte, y: byte, z: byte)
    ensures DecodeSextets(Sextets(Quantum(x, y, z))) == [x, y, z]
  {
    var f := Fields(x, y, z);
    QuantumSextets(x, y, z);
    PackFields(x, y, z);
    assert f[..4] == f && f[4..] == [];
  }

  /** The three characters that encode two bytes decode to those two bytes. */
  lemma PairDecodes(x: byte, y: byte)
    ensures DecodeSextets(Sextets(Quantum(x, y, 0)[..3])) == [x, y]
  {
    var f := Fields(x, y, 0);
    QuantumSextets(x, y, 0);
    SextetsPrefix(Quantum(x, y, 0), 3);
    PackFields(x, y, 0);
    PackFirstTwoBytes(f[0], f[1], f[2], Filler, f[3]);
    assert DecodeSextets(f[..3]) == Pack(f[0], f[1], f[2], Filler)[..2];
  }

  /** The first two characters of a quantum decode to its first byte. */
  lemma SingleDecodes(x: byte, y: byte, z: byte)
    ensures DecodeSextets(Sextets(Quantum(x, y, z)[..2])) == [x]
  {
    var f := Fields(x, y, z);
    QuantumSextets(x, y, z);
    SextetsPrefix(Quantum(x, y, z), 2);
    PackFields(x, y, z);
    PackFirstByte(f[0], f[1], Filler, Filler, f[2], f[3]);
    assert DecodeSextets(f[..2]) == Pack(f[0], f[1], Filler, Filler)[..1];
  }

  /** Packing the sextets of the unpadded encoding gives the bytes back. */
  lemma {:induction false} DecodeEncodeSextets(b: seq<byte>)
    ensures DecodeSextets(Sextets(EncodeUnpadded(b))) == b
    decreases |b|
  {
    if |b| >= 3 {
      var q, rest := Quantum(b[0], b[1], b[2]), EncodeUnpadded(b[3..]);
      assert EncodeUnpadded(b) == q + rest;
      SextetsAppend(q, rest);
      QuantumSextets(b[0], b[1], b[2]);
      DecodeSextetsAppend(Sextets(q), Sextets(rest), 1);
      QuantumDecodes(b[0], b[1], b[2]);
      DecodeEncodeSextets(b[3..]);
      assert b == [b[0], b[1], b[2]] + b[3..];
    } else if |b| == 2 {
      PairEncodingDecodes(b);
    } else if |b| == 1 {
      SingleEncodingDecodes(b);
    }
  }

  /** The three characters that encode a final two bytes decode to them. */
  lemma PairEncodingDecodes(b: seq<byte>)
    requires |b| == 2
    ensures DecodeSextets(Sextets(EncodeUnpadded(b))) == b
  {
    var x, y := b[0], b[1];
    assert b == [x, y];
    var t := Quantum(x, y, 0)[..3];
    assert EncodeUnpadded([x, y]) == t;
    assert DecodeSextets(Sextets(t)) == [x, y] by {
      PairDecodes(x, y);
    }
  }

  /** The two characters that encode a final byte decode to it. */
  lemma SingleEncodingDecodes(b: seq<byte>)
    requires |b| == 1
    ensures DecodeSextets(Sextets(EncodeUnpadded(b))) == b
  {
    var x := b[0];
    assert b == [x];
    var t := Quantum(x, 0, 0)[..2];
    assert EncodeUnpadded([x]) == t;
    assert DecodeSextets(Sextets(t)) == [x] by {
      SingleDecodes(x, 0, 0);
    }
  }

  /**
   Round trip: decoding the section 4 encoding of RFC 4648 of any byte sequence,
   padded or not, gives back exactly that sequence.
   */
  lemma RoundTrip(b: seq<byte>, padded: bool)
    ensures Decode(Encode(b, padded)) == b
  {
    var u, s := EncodeUnpadded(b), Encode(b, padded);
    EncodeUnpaddedAlphabet(b);
    ContinuesIsAlphabet('=');
    assert s[..|u|] == u;
    assert forall k :: 0 <= k < |u| ==> s[k] == u[k];
    assert |s| > |u| ==> s[|u|] == '=';
    TruncatesAtValidPrefix(s, |u|);
    DecodeEncodeSextets(b);
  }
}

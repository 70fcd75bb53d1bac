/** The executable patcher: validation and decoding of the factory and signing
    keys, and the search, replace and recheck that `patch` performs on the
    executable's bytes. */
module Patching {
  import opened Results
  import opened Text

  type Byte = b: int | 0 <= b < 256

  datatype KeyKind = Factory | Signing

  /** The ValueErrors of `__init__` and the RuntimeErrors of `patch`. */
  datatype PatchError =
    | KeyLengthMismatch(lhs: nat, rhs: nat)
    | KeyNotHexadecimal(kind: KeyKind, key: string)
    | KeyNotDecodable(kind: KeyKind, key: string)
    | KeyNotFound
    | KeyStillPresent

  // ---------------------------------------------------------------------------
  // Key validation and decoding

  /** A character of the class `[0-9a-fA-f]`. Its last range runs from 'A'
      (0x41) to 'f' (0x66), so it also admits G-Z and the six characters
      between 'Z' and 'a'. */
  predicate IsFormChar(c: char) {
    '0' <= c <= '9' || 'a' <= c <= 'f' || 'A' <= c <= 'f'
  }

  /** `re.fullmatch('[0-9a-fA-f]+', k)` succeeds. */
  predicate MatchesForm(k: string) {
    |k| >= 1 && forall i :: 0 <= i < |k| ==> IsFormChar(k[i])
  }

  /** `bytes.fromhex(s)`: two hexadecimal digits of either case per byte; it
      fails on any other character and on a digit left without a partner. */
  function FromHex(s: string): (r: Option<seq<Byte>>)
    ensures r.Some? <==> IsHexString(s) && |s| % 2 == 0
    ensures r.Some? ==> |r.value| == |s| / 2
    decreases |s|
  {
    if s == [] then Some([])
    else if |s| == 1 || !IsHexDigit(s[0]) || !IsHexDigit(s[1]) then None
    else
      assert forall i :: 0 <= i < |s| - 2 ==> s[2..][i] == s[i + 2];
      match FromHex(s[2..])
      case None => None
      case Some(rest) => Some([16 * DigitValue(s[0]) + DigitValue(s[1])] + rest)
  }

  /** The lower-case digit of a value below 16. */
  function LowerDigit(d: nat): (c: char)
    requires d < 16
    ensures IsHexDigit(c) && DigitValue(c) == d
  {
    if d < 10 then ('0' as int + d) as char else ('a' as int + (d - 10)) as char
  }

  predicate IsLowerHexString(s: string) {
    forall i :: 0 <= i < |s| ==> '0' <= s[i] <= '9' || 'a' <= s[i] <= 'f'
  }

  /** `bytes.hex()`: two lower-case digits per byte. */
  function ToHex(bs: seq<Byte>): (s: string)
    ensures |s| == 2 * |bs| && IsLowerHexString(s)
  {
    if bs == [] then "" else [LowerDigit(bs[0] / 16), LowerDigit(bs[0] % 16)] + ToHex(bs[1..])
  }

  /** The two digits printed for a byte denote that byte. */
  lemma BytePairRoundTrip(b: Byte)
    ensures 16 * DigitValue(LowerDigit(b / 16)) + DigitValue(LowerDigit(b % 16)) == b
  {
  }

  /** `bytes.fromhex(b.hex()) == b`. */
  lemma {:induction false} HexRoundTrip(bs: seq<Byte>)
    ensures FromHex(ToHex(bs)) == Some(bs)
  {
    if bs != [] {
      HexRoundTrip(bs[1..]);
      var s := ToHex(bs);
      assert s[2..] == ToHex(bs[1..]);
      assert s[0] == LowerDigit(bs[0] / 16) && s[1] == LowerDigit(bs[0] % 16);
      BytePairRoundTrip(bs[0]);
      assert bs == [bs[0]] + bs[1..];
    }
  }

  /** A lower-case digit is printed back as itself. */
  lemma LowerDigitOfValue(c: char)
    requires '0' <= c <= '9' || 'a' <= c <= 'f'
    ensures IsHexDigit(c) && LowerDigit(DigitValue(c)) == c
  {
  }

  /** The byte two lower-case digits denote is printed back as those digits. */
  lemma LowerPairRoundTrip(c: char, d: char)
    requires '0' <= c <= '9' || 'a' <= c <= 'f'
    requires '0' <= d <= '9' || 'a' <= d <= 'f'
    ensures var b := 16 * DigitValue(c) + DigitValue(d);
      b < 256 && LowerDigit(b / 16) == c && LowerDigit(b % 16) == d
  {
    LowerDigitOfValue(c);
    LowerDigitOfValue(d);
    var b := 16 * DigitValue(c) + DigitValue(d);
    assert b / 16 == DigitValue(c) && b % 16 == DigitValue(d);
  }

  /** `bytes.fromhex(s).hex() == s` for lower-case digit strings of even length. */
  lemma {:induction false} LowerHexRoundTrip(s: string)
    requires IsLowerHexString(s) && |s| % 2 == 0
    ensures FromHex(s).Some? && ToHex(FromHex(s).value) == s
    decreases |s|
  {
    if s != [] {
      assert IsLowerHexString(s[2..]);
      LowerHexRoundTrip(s[2..]);
      LowerPairRoundTrip(s[0], s[1]);
      var bs := FromHex(s).value;
      assert bs[1..] == FromHex(s[2..]).value;
      assert s == [s[0], s[1]] + s[2..];
    }
  }

  /** Byte i of the decoded key is the value of digits 2i and 2i + 1, read
      in either case. */
  lemma {:induction false} FromHexValues(s: string)
    requires FromHex(s).Some?
    ensures forall i :: 0 <= i < |s| / 2 ==>
      IsHexString(s[2 * i .. 2 * i + 2]) && FromHex(s).value[i] == HexValue(s[2 * i .. 2 * i + 2])
    decreases |s|
  {
    if s != [] {
      FromHexValues(s[2..]);
      forall i | 0 <= i < |s| / 2
        ensures IsHexString(s[2 * i .. 2 * i + 2]) && FromHex(s).value[i] == HexValue(s[2 * i .. 2 * i + 2])
      {
        if i == 0 {
          PairValue(s[..2]);
        } else {
          assert s[2 * i .. 2 * i + 2] == s[2..][2 * (i - 1) .. 2 * (i - 1) + 2];
        }
      }
    }
  }

  /** Two hexadecimal digits denote 16 times the first plus the second. */
  lemma PairValue(t: string)
    requires |t| == 2 && IsHexDigit(t[0]) && IsHexDigit(t[1])
    ensures IsHexString(t) && HexValue(t) == 16 * DigitValue(t[0]) + DigitValue(t[1])
  {
    assert t[..1][..0] == [];
    assert t[..1] == [t[0]];
  }

  /** A key the patcher accepts once both checks are passed. */
  predicate IsKey(k: string) {
    |k| >= 2 && |k| % 2 == 0 && IsHexString(k)
  }

  /** The pattern then `bytes.fromhex`: together they accept exactly the
      non-empty hexadecimal strings of even length. */
  lemma KeyChecks(k: string)
    ensures MatchesForm(k) && FromHex(k).Some? <==> IsKey(k)
  {
  }

  /** The pattern `[0-9a-fA-f]+` also admits characters between 'F' and 'a',
      which `bytes.fromhex` then rejects; it admits odd lengths, which
      `bytes.fromhex` rejects too. */
  lemma FormAdmitsUndecodable()
    ensures MatchesForm("G0") && !IsHexString("G0") && FromHex("G0").None?
    ensures MatchesForm("_0") && !IsHexString("_0") && FromHex("_0").None?
    ensures MatchesForm("abc") && FromHex("abc").None?
  {
    assert "G0"[0] == 'G';
    assert "_0"[0] == '_';
  }

  /** Followed by `bytes.fromhex`, `[0-9a-fA-f]+` accepts the same keys as
      `[0-9a-fA-F]+`, which admits exactly the non-empty hexadecimal strings:
      the wider range changes only which of the two checks reports a key with
      a character between 'F' and 'a'. */
  lemma FormSameKeysAsHexForm(k: string)
    ensures MatchesForm(k) && FromHex(k).Some? <==> |k| >= 1 && IsHexString(k) && FromHex(k).Some?
    ensures MatchesForm(k) && !IsHexString(k) ==> FromHex(k).None?
  {
  }

  /** The patcher's fields: the executable's path and the two decoded keys. */
  datatype Patcher = Patcher(applicationPath: string, factoryKey: seq<Byte>, signingKey: seq<Byte>)

  /** `Patcher(application_path=..., factory=..., signing=...)`: the lengths are
      compared first, then the factory key is matched and decoded, then the
      signing key. */
  function NewPatcher(applicationPath: string, factory: string, signing: string)
    : (r: Result<Patcher, PatchError>)
    ensures |factory| != |signing| ==> r == Failure(KeyLengthMismatch(|factory|, |signing|))
    ensures |factory| == |signing| && !MatchesForm(factory) ==>
      r == Failure(KeyNotHexadecimal(Factory, factory))
    ensures |factory| == |signing| && MatchesForm(factory) && !IsKey(factory) ==>
      r == Failure(KeyNotDecodable(Factory, factory))
    ensures |factory| == |signing| && IsKey(factory) && !MatchesForm(signing) ==>
      r == Failure(KeyNotHexadecimal(Signing, signing))
    ensures |factory| == |signing| && IsKey(factory) && MatchesForm(signing) && !IsKey(signing) ==>
      r == Failure(KeyNotDecodable(Signing, signing))
    ensures r.Success? <==> |factory| == |signing| && IsKey(factory) && IsKey(signing)
    ensures r.Success? ==>
      && r.value.applicationPath == applicationPath
      && Some(r.value.factoryKey) == FromHex(factory)
      && Some(r.value.signingKey) == FromHex(signing)
      && |r.value.factoryKey| == |r.value.signingKey| == |factory| / 2 >= 1
  {
    if |factory| != |signing| then
      Failure(KeyLengthMismatch(|factory|, |signing|))
    else if !MatchesForm(factory) then
      Failure(KeyNotHexadecimal(Factory, factory))
    else if FromHex(factory).None? then
      Failure(KeyNotDecodable(Factory, factory))
    else if !MatchesForm(signing) then
      Failure(KeyNotHexadecimal(Signing, signing))
    else if FromHex(signing).None? then
      Failure(KeyNotDecodable(Signing, signing))
    else
      Success(Patcher(applicationPath, FromHex(factory).value, FromHex(signing).value))
  }

  // ---------------------------------------------------------------------------
  // Search and replace

  /** The key occurs in s at position i. */
  predicate OccursAt(s: seq<Byte>, key: seq<Byte>, i: nat) {
    i + |key| <= |s| && s[i .. i + |key|] == key
  }

  /** `key in s`. */
  function Contains(s: seq<Byte>, key: seq<Byte>): bool
    decreases |s|
  {
    if |s| < |key| then false
    else s[..|key|] == key || (|s| > 0 && Contains(s[1..], key))
  }

  /** Contains says whether the key occurs at some position. */
  lemma {:induction false} ContainsIffOccurs(s: seq<Byte>, key: seq<Byte>)
    ensures Contains(s, key) <==> exists i: nat :: OccursAt(s, key, i)
    decreases |s|
  {
    if |s| >= |key| && |s| > 0 {
      ContainsIffOccurs(s[1..], key);
      if s[..|key|] == key {
        assert OccursAt(s, key, 0);
      }
      if exists i: nat :: OccursAt(s[1..], key, i) {
        var i: nat :| OccursAt(s[1..], key, i);
        assert s[i + 1 .. i + 1 + |key|] == s[1..][i .. i + |key|];
        assert OccursAt(s, key, i + 1);
      }
      if exists i: nat :: OccursAt(s, key, i) {
        var i: nat :| OccursAt(s, key, i);
        if i > 0 {
          assert s[1..][i - 1 .. i - 1 + |key|] == s[i .. i + |key|];
          assert OccursAt(s[1..], key, i - 1);
        } else {
          assert s[..|key|] == s[0 .. |key|];
        }
      }
    } else if |s| < |key| {
      assert forall i: nat :: !OccursAt(s, key, i);
    } else {
      assert OccursAt(s, key, 0);
    }
  }

  /** The empty key occurs in every sequence. */
  lemma ContainsEmpty(s: seq<Byte>)
    ensures Contains(s, [])
  {
    assert s[..0] == [];
  }

  /** `s.replace(b'', subst)`: the substitute before every byte and at the end. */
  function ReplaceEmpty(s: seq<Byte>, subst: seq<Byte>): seq<Byte> {
    if s == [] then subst else subst + [s[0]] + ReplaceEmpty(s[1..], subst)
  }

  /** `s.replace(search, subst)`: scanning left to right, every occurrence of
      the search key that does not overlap an earlier replaced one is
      replaced. */
  function Replace(s: seq<Byte>, search: seq<Byte>, subst: seq<Byte>): seq<Byte>
    decreases |s|
  {
    if search == [] then ReplaceEmpty(s, subst)
    else if |s| < |search| then s
    else if s[..|search|] == search then subst + Replace(s[|search|..], search, subst)
    else [s[0]] + Replace(s[1..], search, subst)
  }

  /** The first occurrence, at i, is replaced, the bytes before it are kept,
      and the scan resumes after it: together with ReplaceAbsent this is the
      left-to-right, non-overlapping rule. */
  lemma ReplaceFirst(s: seq<Byte>, k: seq<Byte>, t: seq<Byte>, i: nat)
    requires |k| >= 1 && OccursAt(s, k, i) && forall j: nat :: j < i ==> !OccursAt(s, k, j)
    ensures Replace(s, k, t) == s[..i] + t + Replace(s[i + |k|..], k, t)
  {
    FirstReplaced(s, k, t, i);
  }

  /** Replace(s, k, t) splits at i into the kept prefix, the substitute and
      the rest, replaced. */
  predicate ReplacedAt(s: seq<Byte>, k: seq<Byte>, t: seq<Byte>, i: nat)
    requires i + |k| <= |s|
  {
    Replace(s, k, t) == s[..i] + t + Replace(s[i + |k|..], k, t)
  }

  lemma {:induction false} FirstReplaced(s: seq<Byte>, k: seq<Byte>, t: seq<Byte>, i: nat)
    requires |k| >= 1 && OccursAt(s, k, i) && forall j: nat :: j < i ==> !OccursAt(s, k, j)
    ensures ReplacedAt(s, k, t, i)
    decreases i
  {
    if i == 0 {
      ReplaceAtStart(s, k, t);
    } else {
      ShiftedOccurrences(s, k, i);
      FirstReplaced(s[1..], k, t, i - 1);
      StepFromTail(s, k, t, i);
    }
  }

  lemma ReplaceAtStart(s: seq<Byte>, k: seq<Byte>, t: seq<Byte>)
    requires |k| >= 1 && OccursAt(s, k, 0)
    ensures ReplacedAt(s, k, t, 0)
  {
    assert s[..|k|] == s[0..|k|];
    assert s[..0] + t == t;
  }

  /** Without an occurrence at 0 the first byte is kept. */
  lemma ReplaceSkip(s: seq<Byte>, k: seq<Byte>, t: seq<Byte>, i: nat)
    requires |k| >= 1 && i >= 1 && i + |k| <= |s| && !OccursAt(s, k, 0)
    ensures Replace(s, k, t) == [s[0]] + Replace(s[1..], k, t)
  {
    assert s[..|k|] == s[0..|k|];
  }

  /** Without an occurrence at 0 the first byte is kept, so the result for
      s[1..] carries over to s. */
  lemma StepFromTail(s: seq<Byte>, k: seq<Byte>, t: seq<Byte>, i: nat)
    requires |k| >= 1 && 1 <= i && i + |k| <= |s| && !OccursAt(s, k, 0)
    requires ReplacedAt(s[1..], k, t, i - 1)
    ensures ReplacedAt(s, k, t, i)
  {
    ReplaceSkip(s, k, t, i);
    StepEquation(s, k, t, i);
  }

  /** Occurrences in s[1..] are those in s, one position earlier. */
  lemma ShiftedOccurrences(s: seq<Byte>, k: seq<Byte>, i: nat)
    requires i >= 1 && OccursAt(s, k, i) && forall j: nat :: j < i ==> !OccursAt(s, k, j)
    ensures !OccursAt(s, k, 0)
    ensures OccursAt(s[1..], k, i - 1) && forall j: nat :: j < i - 1 ==> !OccursAt(s[1..], k, j)
  {
    assert !OccursAt(s, k, 0);
    assert s[1..][i - 1 .. i - 1 + |k|] == s[i .. i + |k|];
    forall j: nat | j < i - 1
      ensures !OccursAt(s[1..], k, j)
    {
      assert !OccursAt(s, k, j + 1);
      if j + |k| <= |s| - 1 {
        assert s[1..][j .. j + |k|] == s[j + 1 .. j + 1 + |k|];
      }
    }
  }

  /** The result for s[1..], with s[0] put back in front, is the result for s. */
  lemma StepEquation(s: seq<Byte>, k: seq<Byte>, t: seq<Byte>, i: nat)
    requires 1 <= i && i + |k| <= |s|
    requires Replace(s, k, t) == [s[0]] + Replace(s[1..], k, t)
    requires ReplacedAt(s[1..], k, t, i - 1)
    ensures ReplacedAt(s, k, t, i)
  {
    DropShift(s, i - 1 + |k|, i + |k|);
    ReplaceOfEqual(s[1..][i - 1 + |k|..], s[i + |k|..], k, t);
    PrefixOfTail(s, i);
    Chain(s[0], Replace(s, k, t), Replace(s[1..], k, t), s[1..][..i - 1], t,
          Replace(s[1..][i - 1 + |k|..], k, t), Replace(s[i + |k|..], k, t), s[..i]);
  }

  lemma DropShift(s: seq<Byte>, m: nat, n: nat)
    requires n == m + 1 <= |s|
    ensures s[1..][m..] == s[n..]
  {
  }

  lemma PrefixOfTail(s: seq<Byte>, i: nat)
    requires 1 <= i <= |s|
    ensures [s[0]] + s[1..][..i - 1] == s[..i]
  {
  }

  lemma ReplaceOfEqual(a: seq<Byte>, b: seq<Byte>, k: seq<Byte>, t: seq<Byte>)
    requires a == b
    ensures Replace(a, k, t) == Replace(b, k, t)
  {
  }

  /** The equational step: x is x0 before y, y is a, t and r0, and r0 is r. */
  lemma Chain(x0: Byte, x: seq<Byte>, y: seq<Byte>, a: seq<Byte>, t: seq<Byte>, r0: seq<Byte>, r: seq<Byte>, p: seq<Byte>)
    requires x == [x0] + y && y == a + t + r0 && r0 == r && [x0] + a == p
    ensures x == p + t + r
  {
  }

  /** Replacing a key with one of the same length keeps the length. */
  lemma {:induction false} ReplaceLength(s: seq<Byte>, search: seq<Byte>, subst: seq<Byte>)
    requires |search| == |subst| >= 1
    ensures |Replace(s, search, subst)| == |s|
    decreases |s|
  {
    if |s| >= |search| {
      if s[..|search|] == search {
        ReplaceLength(s[|search|..], search, subst);
      } else {
        ReplaceLength(s[1..], search, subst);
      }
    }
  }

  /** Without an occurrence, nothing is replaced. */
  lemma {:induction false} ReplaceAbsent(s: seq<Byte>, search: seq<Byte>, subst: seq<Byte>)
    requires |search| >= 1 && !Contains(s, search)
    ensures Replace(s, search, subst) == s
    decreases |s|
  {
    if |s| >= |search| {
      ReplaceAbsent(s[1..], search, subst);
      assert s == [s[0]] + s[1..];
    }
  }

  /** With an occurrence and a different key of the same length, the content
      changes: Replace leaves s as it is exactly when the key does not occur. */
  lemma {:induction false} ReplacePresent(s: seq<Byte>, search: seq<Byte>, subst: seq<Byte>)
    requires |search| == |subst| >= 1 && search != subst && Contains(s, search)
    ensures Replace(s, search, subst) != s
    decreases |s|
  {
    var r := Replace(s, search, subst);
    if s[..|search|] == search {
      assert r[..|subst|] == subst;
    } else {
      ReplacePresent(s[1..], search, subst);
      assert r[1..] == Replace(s[1..], search, subst);
    }
  }

  /** Replacing a key with itself changes nothing. */
  lemma {:induction false} ReplaceWithItself(s: seq<Byte>, key: seq<Byte>)
    requires |key| >= 1
    ensures Replace(s, key, key) == s
    decreases |s|
  {
    if |s| >= |key| {
      if s[..|key|] == key {
        ReplaceWithItself(s[|key|..], key);
        assert s == key + s[|key|..];
      } else {
        ReplaceWithItself(s[1..], key);
        assert s == [s[0]] + s[1..];
      }
    }
  }

  /** After a replacement that found an occurrence, the substitute occurs. */
  lemma {:induction false} ReplacementPresent(s: seq<Byte>, search: seq<Byte>, subst: seq<Byte>)
    requires |search| >= 1 && Contains(s, search)
    ensures Contains(Replace(s, search, subst), subst)
    decreases |s|
  {
    var r := Replace(s, search, subst);
    if s[..|search|] == search {
      assert OccursAt(r, subst, 0);
    } else {
      ReplacementPresent(s[1..], search, subst);
      ContainsIffOccurs(Replace(s[1..], search, subst), subst);
      var i: nat :| OccursAt(Replace(s[1..], search, subst), subst, i);
      assert r[i + 1 .. i + 1 + |subst|] == Replace(s[1..], search, subst)[i .. i + |subst|];
      assert OccursAt(r, subst, i + 1);
    }
    ContainsIffOccurs(r, subst);
  }

  /** Occurrences are taken left to right and do not overlap: in three equal
      bytes only the first two are replaced. */
  lemma ReplaceLeftToRight()
    ensures Replace([1, 1, 1], [1, 1], [2, 2]) == [2, 2, 1]
  {
    assert [1, 1, 1][..2] == [1, 1] && [1, 1, 1][2..] == [1];
  }

  /** A replacement can create a new occurrence across its boundary: in
      [1, 1, 2] the key [1, 2] occurs once, and replacing it with [2, 1] gives
      [1, 2, 1], which contains it again. */
  lemma ReplacementCanRecreateKey()
    ensures Contains([1, 1, 2], [1, 2])
    ensures Replace([1, 1, 2], [1, 2], [2, 1]) == [1, 2, 1]
    ensures Contains([1, 2, 1], [1, 2])
  {
    assert [1, 1, 2][..2] == [1, 1] && [1, 1, 2][1..] == [1, 2];
    assert [1, 2][..2] == [1, 2] && [1, 2][2..] == [];
    assert [1, 2, 1][..2] == [1, 2];
  }

  /** The key `patch` searches for: the signing key when reverting, the factory
      key otherwise. */
  function SearchKey(p: Patcher, revert: bool): seq<Byte> {
    if revert then p.signingKey else p.factoryKey
  }

  /** The key `patch` writes in its place: the other one. */
  function SubstituteKey(p: Patcher, revert: bool): seq<Byte> {
    if revert then p.factoryKey else p.signingKey
  }

  /** The checks and the replacement of `patch(revert)`, with the executable's
      bytes as input and, on success, the bytes it writes back as output. */
  method Patch(p: Patcher, revert: bool, content: seq<Byte>) returns (r: Result<seq<Byte>, PatchError>)
    ensures r == Failure(KeyNotFound) <==> !Contains(content, SearchKey(p, revert))
    ensures r == Failure(KeyStillPresent) <==>
      Contains(content, SearchKey(p, revert))
      && Contains(Replace(content, SearchKey(p, revert), SubstituteKey(p, revert)), SearchKey(p, revert))
    ensures r.Success? <==> Contains(content, SearchKey(p, revert)) && !Contains(Replace(content, SearchKey(p, revert), SubstituteKey(p, revert)), SearchKey(p, revert))
    ensures r.Success? ==>
      && r.value == Replace(content, SearchKey(p, revert), SubstituteKey(p, revert))
      && !Contains(r.value, SearchKey(p, revert))
    ensures r.Success? && |p.factoryKey| == |p.signingKey| ==> |r.value| == |content|
  {
    var fk, sk;
    if revert {
      fk, sk := p.signingKey, p.factoryKey;
    } else {
      fk, sk := p.factoryKey, p.signingKey;
    }
    var data := content;
    if !Contains(data, fk) {
      return Failure(KeyNotFound);
    }
    data := Replace(data, fk, sk);
    if Contains(data, fk) {
      return Failure(KeyStillPresent);
    }
    if |fk| == |sk| {
      ContainsEmpty(data);
      ReplaceLength(content, fk, sk);
    }
    return Success(data);
  }

  /** Patching with equal keys never writes anything: the key is either absent
      or still present after the replacement. */
  lemma SameKeysNeverPatch(content: seq<Byte>, key: seq<Byte>)
    ensures !Contains(content, key) || Contains(Replace(content, key, key), key)
  {
    if key != [] {
      ReplaceWithItself(content, key);
    } else {
      ContainsEmpty(Replace(content, key, key));
    }
  }
}

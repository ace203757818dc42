/**
 * The Base64 shape check of Sources/Utility/StringUtility.swift.
 *
 * `isBase64EncodedString` matches the whole string against the pattern
 * `(A{4})*(A{3}=|A{2}==)`, where `A` is the alphabet of section 4 of RFC 4648:
 * upper- and lower-case letters, digits, `+` and `/`. `Recognised` follows the
 * pattern's structure; `Encode` is the encoding of section 4 of RFC 4648, and
 * `RecognisedOrUnpadded` is the check that accepts everything it produces.
 */
module StringUtility {

  /** An octet of the data being encoded. */
  newtype byte = x: int | 0 <= x < 256

  /** The 64 characters of the Base64 alphabet. */
  predicate InAlphabet(c: char)
  {
    'A' <= c <= 'Z' || 'a' <= c <= 'z' || '0' <= c <= '9' || c == '+' || c == '/'
  }

  /** The pattern's repeated group: four alphabet characters. */
  predicate FullGroup(g: string)
  {
    |g| == 4 && InAlphabet(g[0]) && InAlphabet(g[1]) && InAlphabet(g[2]) && InAlphabet(g[3])
  }

  /** The pattern's closing group: three alphabet characters and `=`, or two and `==`. */
  predicate PaddedGroup(g: string)
  {
    |g| == 4 && InAlphabet(g[0]) && InAlphabet(g[1]) &&
    ((InAlphabet(g[2]) && g[3] == '=') || (g[2] == '=' && g[3] == '='))
  }

  /** `isBase64EncodedString`: full groups, then exactly one padded group, and nothing else. */
  predicate Recognised(s: string)
    decreases |s|
  {
    if |s| <= 4 then PaddedGroup(s)
    else FullGroup(s[..4]) && Recognised(s[4..])
  }

  /** The shape of an accepted string, stated without the group structure. */
  predicate Shaped(s: string)
  {
    |s| >= 4 && |s| % 4 == 0 &&
    (forall i :: 0 <= i < |s| - 2 ==> InAlphabet(s[i])) &&
    (InAlphabet(s[|s| - 2]) || s[|s| - 2] == '=') &&
    s[|s| - 1] == '='
  }

  /**
   * A string is accepted exactly when its length is a positive multiple of
   * four, it ends in `=`, and everything before the last two characters is
   * in the alphabet, the second-to-last being an alphabet character or `=`.
   */
  lemma {:induction false} RecognisedIsShaped(s: string)
    ensures Recognised(s) <==> Shaped(s)
    decreases |s|
  {
    if |s| > 4 {
      var rest := s[4..];
      RecognisedIsShaped(rest);
      if |rest| >= 2 {
        assert rest[|rest| - 1] == s[|s| - 1] && rest[|rest| - 2] == s[|s| - 2];
      }
      if Shaped(s) {
        assert forall i :: 0 <= i < |rest| - 2 ==> rest[i] == s[i + 4];
      }
      if FullGroup(s[..4]) && Shaped(rest) {
        forall i | 0 <= i < |s| - 2
          ensures InAlphabet(s[i])
        {
          if i >= 4 {
            assert s[i] == rest[i - 4];
          } else {
            assert s[i] == s[..4][i];
          }
        }
      }
    }
  }

  /** An accepted string is a positive number of four-character groups and ends in padding. */
  lemma AcceptedLength(s: string)
    requires Recognised(s)
    ensures |s| >= 4 && |s| % 4 == 0 && s[|s| - 1] == '='
  {
    RecognisedIsShaped(s);
  }

  /** `=` occurs in an accepted string only in its last two positions. */
  lemma PaddingOnlyAtEnd(s: string, i: nat)
    requires Recognised(s) && i < |s| && s[i] == '='
    ensures i >= |s| - 2
  {
    RecognisedIsShaped(s);
  }

  /** Every character of an accepted string is in the alphabet or is `=`; the URL-safe `-` and `_` never are. */
  lemma AcceptedCharacters(s: string)
    requires Recognised(s)
    ensures forall c :: c in s ==> InAlphabet(c) || c == '='
    ensures '-' !in s && '_' !in s
  {
    RecognisedIsShaped(s);
    forall c | c in s
      ensures InAlphabet(c) || c == '='
    {
      var i :| 0 <= i < |s| && s[i] == c;
    }
  }

  /** The empty string is rejected: the padded group is mandatory. */
  lemma EmptyRejected()
    ensures !Recognised("")
  {
  }

  /** A string of alphabet characters only, with no padding, is rejected. */
  lemma UnpaddedRejected(s: string)
    requires forall i :: 0 <= i < |s| ==> InAlphabet(s[i])
    ensures !Recognised(s)
  {
    RecognisedIsShaped(s);
    if |s| > 0 {
      assert !InAlphabet('=');
    }
  }

  // ----- section 4 of RFC 4648 -----

  /** The character of a 6-bit value in the Base64 alphabet. */
  function Sextet(v: int): (c: char)
    requires 0 <= v < 64
    ensures InAlphabet(c)
  {
    if v < 26 then (65 + v) as char
    else if v < 52 then (97 + v - 26) as char
    else if v < 62 then (48 + v - 52) as char
    else if v == 62 then '+'
    else '/'
  }

  /** The four characters of three octets. */
  function Quantum(a: byte, b: byte, c: byte): (g: string)
    ensures FullGroup(g)
  {
    var x, y, z := a as int, b as int, c as int;
    [Sextet(x / 4), Sextet(x % 4 * 16 + y / 16), Sextet(y % 16 * 4 + z / 64), Sextet(z % 64)]
  }

  /** The three characters and `=` of a final two octets. */
  function PairQuantum(a: byte, b: byte): (g: string)
    ensures PaddedGroup(g)
  {
    var x, y := a as int, b as int;
    [Sextet(x / 4), Sextet(x % 4 * 16 + y / 16), Sextet(y % 16 * 4), '=']
  }

  /** The two characters and `==` of a final single octet. */
  function SingleQuantum(a: byte): (g: string)
    ensures PaddedGroup(g)
  {
    var x := a as int;
    [Sextet(x / 4), Sextet(x % 4 * 16), '=', '=']
  }

  /**
   * The Base64 encoding of `data`: a group of four characters per three octets;
   * a final two octets give three characters and `=`, a final octet two and `==`.
   */
  function Encode(data: seq<byte>): (s: string)
    ensures s == [] <==> data == []
    decreases |data|
  {
    if |data| >= 3 then Quantum(data[0], data[1], data[2]) + Encode(data[3..])
    else if |data| == 2 then PairQuantum(data[0], data[1])
    else if |data| == 1 then SingleQuantum(data[0])
    else []
  }

  /** When the data length is a multiple of three the encoding has no padding. */
  lemma {:induction false} EncodeWholeQuanta(data: seq<byte>)
    requires |data| % 3 == 0
    ensures forall i :: 0 <= i < |Encode(data)| ==> InAlphabet(Encode(data)[i])
    decreases |data|
  {
    if |data| >= 3 {
      var g, rest := Quantum(data[0], data[1], data[2]), Encode(data[3..]);
      EncodeWholeQuanta(data[3..]);
      forall i | 0 <= i < |g + rest|
        ensures InAlphabet((g + rest)[i])
      {
        if i >= 4 {
          assert (g + rest)[i] == rest[i - 4];
        }
      }
    }
  }

  /** The encoding of "ABC" is "QUJD". */
  lemma EncodeABC()
    ensures Encode([65, 66, 67]) == "QUJD"
  {
    var data: seq<byte> := [65, 66, 67];
    assert data[3..] == [];
    assert Sextet(16) == 'Q' && Sextet(20) == 'U' && Sextet(9) == 'J' && Sextet(3) == 'D';
    assert Quantum(65, 66, 67) == "QUJD";
  }

  /** The as-written check rejects every encoding of a whole number of quanta, the empty one included. */
  lemma WholeQuantaRejected(data: seq<byte>)
    requires |data| % 3 == 0
    ensures !Recognised(Encode(data))
  {
    EncodeWholeQuanta(data);
    UnpaddedRejected(Encode(data));
  }

  /** "QUJD", the encoding of "ABC", is rejected. */
  lemma EncodedABCRejected()
    ensures Encode([65, 66, 67]) == "QUJD" && !Recognised("QUJD")
  {
    EncodeABC();
    WholeQuantaRejected([65, 66, 67]);
  }

  /**
   * The check the pattern evidently means: full groups, then at most one
   * closing group, which may be padded; the empty string included.
   */
  predicate RecognisedOrUnpadded(s: string)
    decreases |s|
  {
    if |s| == 0 then true
    else if |s| == 4 then FullGroup(s) || PaddedGroup(s)
    else |s| > 4 && FullGroup(s[..4]) && RecognisedOrUnpadded(s[4..])
  }

  /** Everything the as-written check accepts, the intended check accepts too. */
  lemma {:induction false} RecognisedIsIntended(s: string)
    requires Recognised(s)
    ensures RecognisedOrUnpadded(s)
    decreases |s|
  {
    if |s| > 4 {
      RecognisedIsIntended(s[4..]);
    }
  }

  /** The intended check accepts every Base64 encoding. */
  lemma {:induction false} EncodedIsIntended(data: seq<byte>)
    ensures RecognisedOrUnpadded(Encode(data))
    decreases |data|
  {
    if |data| >= 3 {
      var g, rest := Quantum(data[0], data[1], data[2]), Encode(data[3..]);
      EncodedIsIntended(data[3..]);
      assert (g + rest)[..4] == g && (g + rest)[4..] == rest;
    }
  }
}

/**
 * The string helpers of Sources/Foundatee/String+Extension.swift, over ASCII.
 *
 * A `CharacterSet` is a membership predicate on characters. A Swift `var`
 * string that the `mutating` helpers edit in place is a `StringVar` object
 * whose `value` field they reassign.
 */
module StringExtension {
  import opened Wrappers

  type CharacterSet = char -> bool

  /** `CharacterSet.decimalDigits`, restricted to ASCII. */
  function DecimalDigits(): CharacterSet {
    c => '0' <= c <= '9'
  }

  /** `CharacterSet.inverted`. */
  function Inverted(cs: CharacterSet): CharacterSet {
    c => !cs(c)
  }

  /** `CharacterSet(charactersIn:)`. */
  function CharactersIn(s: string): CharacterSet {
    c => c in s
  }

  /** `.whitespacesAndNewlines`, restricted to ASCII: space, tab, line feed, vertical tab, form feed, carriage return. */
  predicate IsWhitespace(c: char) {
    c == ' ' || '\t' <= c <= '\r'
  }

  // ----- +/ -----

  /** `left +/ right`: the two strings joined by one dot. */
  function DotJoin(left: string, right: string): (r: string)
    ensures |r| == |left| + 1 + |right| && r[|left|] == '.'
    ensures r[..|left|] == left && r[|left| + 1..] == right
  {
    left + "." + right
  }

  /** `components(separatedBy: ".").last`: the text after the last dot, or all of `s` when it has none. */
  function LastComponent(s: string): (r: string)
    ensures '.' !in r
    ensures |r| <= |s| && r == s[|s| - |r|..]
    ensures |r| < |s| ==> s[|s| - |r| - 1] == '.'
  {
    if s == [] || s[|s| - 1] == '.' then []
    else
      var init := s[..|s| - 1];
      var r := LastComponent(init);
      assert init[|init| - |r|..] + [s[|s| - 1]] == s[|s| - |r| - 1..];
      r + [s[|s| - 1]]
  }

  /** A dot-free right operand of `+/` is the joined path's last component. */
  lemma LastComponentOfDotJoin(left: string, right: string)
    requires '.' !in right
    ensures LastComponent(DotJoin(left, right)) == right
  {
    var x := DotJoin(left, right);
    assert |LastComponent(x)| == |right|;
  }

  // ----- trimming and case -----

  function TrimStart(s: string): (r: string)
    ensures |r| <= |s| && r == s[|s| - |r|..]
    ensures forall i :: 0 <= i < |s| - |r| ==> IsWhitespace(s[i])
    ensures r != [] ==> !IsWhitespace(r[0])
  {
    if s != [] && IsWhitespace(s[0]) then TrimStart(s[1..]) else s
  }

  function TrimEnd(s: string): (r: string)
    ensures |r| <= |s| && r == s[..|r|]
    ensures forall i :: |r| <= i < |s| ==> IsWhitespace(s[i])
    ensures r != [] ==> !IsWhitespace(r[|r| - 1])
  {
    if s != [] && IsWhitespace(s[|s| - 1]) then TrimEnd(s[..|s| - 1]) else s
  }

  /** `trimmingCharacters(in: .whitespacesAndNewlines)`. */
  function Trimming(s: string): (r: string)
    ensures r == [] <==> forall i :: 0 <= i < |s| ==> IsWhitespace(s[i])
    ensures r != [] ==> !IsWhitespace(r[0]) && !IsWhitespace(r[|r| - 1])
  {
    var t := TrimStart(s);
    assert forall i :: |s| - |t| <= i < |s| ==> s[i] == t[i - (|s| - |t|)];
    TrimEnd(t)
  }

  /** `isBlank`: nothing is left once whitespace is trimmed. */
  function IsBlank(s: string): (b: bool)
    ensures b <==> forall i :: 0 <= i < |s| ==> IsWhitespace(s[i])
  {
    Trimming(s) == []
  }

  lemma {:induction false} TrimStartPadded(a: string, s: string)
    requires forall i :: 0 <= i < |a| ==> IsWhitespace(a[i])
    ensures TrimStart(a + s) == TrimStart(s)
  {
    if a != [] {
      var x, rest := a + s, a[1..];
      assert x[0] == a[0] && x[1..] == rest + s;
      assert TrimStart(x) == TrimStart(rest + s);
      assert forall i :: 0 <= i < |rest| ==> rest[i] == a[i + 1];
      TrimStartPadded(rest, s);
    } else {
      assert a + s == s;
    }
  }

  lemma {:induction false} TrimEndPadded(s: string, b: string)
    requires forall i :: 0 <= i < |b| ==> IsWhitespace(b[i])
    ensures TrimEnd(s + b) == TrimEnd(s)
  {
    if b != [] {
      assert (s + b)[..|s + b| - 1] == s + b[..|b| - 1];
      TrimEndPadded(s, b[..|b| - 1]);
    } else {
      assert s + b == s;
    }
  }

  lemma {:induction false} TrimStartAppend(s: string, b: string)
    requires TrimStart(s) != []
    ensures TrimStart(s + b) == TrimStart(s) + b
  {
    var x := s + b;
    assert x[0] == s[0];
    if IsWhitespace(s[0]) {
      assert x[1..] == s[1..] + b;
      assert TrimStart(x) == TrimStart(s[1..] + b);
      TrimStartAppend(s[1..], b);
    }
  }

  /** Whitespace around a string does not change what it trims to. */
  lemma TrimmingPadded(a: string, s: string, b: string)
    requires forall i :: 0 <= i < |a| ==> IsWhitespace(a[i])
    requires forall i :: 0 <= i < |b| ==> IsWhitespace(b[i])
    ensures Trimming(a + s + b) == Trimming(s)
  {
    assert a + s + b == a + (s + b);
    TrimStartPadded(a, s + b);
    if TrimStart(s) != [] {
      TrimStartAppend(s, b);
      TrimEndPadded(TrimStart(s), b);
    } else {
      TrimStartPadded(s, b);
      TrimStartPadded(b, []);
      assert b + [] == b;
    }
  }

  /** Lowercase of an ASCII letter; every other character is kept. */
  function Lower(c: char): (l: char)
    ensures IsWhitespace(l) <==> IsWhitespace(c)
    ensures 'A' <= c <= 'Z' ==> l as int == c as int + 32
  {
    if 'A' <= c <= 'Z' then (c as int + 32) as char else c
  }

  /** `lowercased()`, restricted to ASCII. */
  function Lowercased(s: string): (r: string)
    ensures |r| == |s|
    ensures forall i :: 0 <= i < |r| ==> !('A' <= r[i] <= 'Z')
    ensures forall i :: 0 <= i < |s| && !('A' <= s[i] <= 'Z') ==> r[i] == s[i]
  {
    seq(|s|, i requires 0 <= i < |s| => Lower(s[i]))
  }

  // ----- boolValue -----

  /** `boolValue`: the lowercased, trimmed string read as a yes/no token. */
  function BoolValue(s: string): (r: Option<bool>)
  {
    Token(Trimming(Lowercased(s)))
  }

  /** The yes/no token a trimmed, lowercased string names, if any. */
  function Token(t: string): (r: Option<bool>)
    ensures r.Some? ==> 1 <= |t| <= 5
    ensures r.Some? ==> forall i :: 0 <= i < |t| ==> !IsWhitespace(t[i]) && !('A' <= t[i] <= 'Z')
  {
    if t == "true" || t == "t" || t == "yes" || t == "y" || t == "1" then Some(true)
    else if t == "false" || t == "f" || t == "no" || t == "n" || t == "0" then Some(false)
    else None
  }

  /** Surrounding whitespace is ignored. */
  lemma BoolValuePadded(a: string, s: string, b: string)
    requires forall i :: 0 <= i < |a| ==> IsWhitespace(a[i])
    requires forall i :: 0 <= i < |b| ==> IsWhitespace(b[i])
    ensures BoolValue(a + s + b) == BoolValue(s)
  {
    assert Lowercased(a + s + b) == Lowercased(a) + Lowercased(s) + Lowercased(b);
    TrimmingPadded(Lowercased(a), Lowercased(s), Lowercased(b));
  }

  /** A string that neither starts nor ends with whitespace is its own trimming. */
  lemma TrimmingUnpadded(s: string)
    requires s != [] && !IsWhitespace(s[0]) && !IsWhitespace(s[|s| - 1])
    ensures Trimming(s) == s
  {
  }

  /** Lowercasing works character by character. */
  lemma LowercasedIs(s: string, t: string)
    requires |s| == |t| && forall i :: 0 <= i < |s| ==> Lower(s[i]) == t[i]
    ensures Lowercased(s) == t
  {
  }

  /** A string whose lowercase form `t` has no surrounding whitespace reads as the token `t`. */
  lemma BoolValueOfToken(s: string, t: string)
    requires Lowercased(s) == t && t != [] && !IsWhitespace(t[0]) && !IsWhitespace(t[|t| - 1])
    ensures BoolValue(s) == Token(t)
  {
    TrimmingUnpadded(t);
  }

  /** Case is ignored: an upper-case true token reads as true. */
  lemma BoolValueUpperYes()
    ensures BoolValue("YES") == Some(true)
  {
    LowercasedIs("YES", "yes");
    BoolValueOfToken("YES", "yes");
  }

  /** Case is ignored: a capitalised false token reads as false. */
  lemma BoolValueCapitalNo()
    ensures BoolValue("No") == Some(false)
  {
    LowercasedIs("No", "no");
    BoolValueOfToken("No", "no");
  }

  /** A word outside the two token lists reads as nil. */
  lemma BoolValueOther()
    ensures BoolValue("on") == None
  {
    LowercasedIs("on", "on");
    BoolValueOfToken("on", "on");
  }

  // ----- removingCharacters / digitsOnly -----

  /** `removingCharacters(from:)`: the characters outside `forbidden`, in order. */
  function RemovingCharacters(s: string, forbidden: CharacterSet): (r: string)
    ensures |r| <= |s|
    ensures forall i :: 0 <= i < |r| ==> !forbidden(r[i]) && r[i] in s
    ensures forall i :: 0 <= i < |s| && !forbidden(s[i]) ==> s[i] in r
  {
    if s == [] then []
    else
      var init := RemovingCharacters(s[..|s| - 1], forbidden);
      var last := s[|s| - 1];
      assert forall i :: 0 <= i < |s| - 1 ==> s[..|s| - 1][i] == s[i];
      if forbidden(last) then init else init + [last]
  }

  /** Filtering a concatenation filters each part: the kept characters keep their order. */
  lemma {:induction false} RemovingCharactersConcat(a: string, b: string, forbidden: CharacterSet)
    ensures RemovingCharacters(a + b, forbidden) == RemovingCharacters(a, forbidden) + RemovingCharacters(b, forbidden)
    decreases |b|
  {
    if b == [] {
      assert a + b == a;
    } else {
      var init := b[..|b| - 1];
      assert (a + b)[..|a + b| - 1] == a + init;
      RemovingCharactersConcat(a, init, forbidden);
    }
  }

  /** Every allowed character keeps its number of occurrences; every forbidden one is gone. */
  lemma {:induction false} RemovingCharactersCounts(s: string, forbidden: CharacterSet, c: char)
    ensures multiset(RemovingCharacters(s, forbidden))[c] == if forbidden(c) then 0 else multiset(s)[c]
  {
    if s != [] {
      RemovingCharactersCounts(s[..|s| - 1], forbidden, c);
      assert s == s[..|s| - 1] + [s[|s| - 1]];
    }
  }

  /** `removingCharacters(from: String)`: removes the characters the string lists. */
  function RemovingCharactersIn(s: string, from: string): (r: string)
    ensures forall i :: 0 <= i < |r| ==> r[i] !in from && r[i] in s
    ensures forall i :: 0 <= i < |s| && s[i] !in from ==> s[i] in r
  {
    RemovingCharacters(s, CharactersIn(from))
  }

  /** `digitsOnly`: the decimal digits of `s`, in order. */
  function DigitsOnly(s: string): (r: string)
    ensures forall i :: 0 <= i < |r| ==> '0' <= r[i] <= '9'
    ensures forall i :: 0 <= i < |s| && '0' <= s[i] <= '9' ==> s[i] in r
  {
    RemovingCharacters(s, Inverted(DecimalDigits()))
  }

  /** A string of digits only is left as it is by `digitsOnly`. */
  lemma {:induction false} DigitsOnlyOfDigits(s: string)
    requires forall i :: 0 <= i < |s| ==> '0' <= s[i] <= '9'
    ensures DigitsOnly(s) == s
  {
    if s != [] {
      var init := s[..|s| - 1];
      forall i | 0 <= i < |init|
        ensures '0' <= init[i] <= '9'
      {
        assert init[i] == s[i];
      }
      DigitsOnlyOfDigits(init);
      assert init + [s[|s| - 1]] == s;
    }
  }

  /** A string is left unchanged by `digitsOnly` exactly when it is all digits. */
  lemma DigitsOnlyUnchanged(s: string)
    ensures DigitsOnly(s) == s <==> forall i :: 0 <= i < |s| ==> '0' <= s[i] <= '9'
  {
    if forall i :: 0 <= i < |s| ==> '0' <= s[i] <= '9' {
      DigitsOnlyOfDigits(s);
    }
  }

  // ----- fits / isDigitsOnly -----

  /** `fits`: every character is in `cs`; the scan stops at the first one that is not. */
  method Fits(s: string, cs: CharacterSet) returns (b: bool)
    ensures b <==> forall i :: 0 <= i < |s| ==> cs(s[i])
  {
    for i := 0 to |s|
      invariant forall k :: 0 <= k < i ==> cs(s[k])
    {
      if !cs(s[i]) {
        return false;
      }
    }
    return true;
  }

  /** `isDigitsOnly`: `fits` over the decimal digits, so true for the empty string. */
  method IsDigitsOnly(s: string) returns (b: bool)
    ensures b <==> forall i :: 0 <= i < |s| ==> '0' <= s[i] <= '9'
  {
    b := Fits(s, DecimalDigits());
  }

  // ----- unionSets -----

  /** `CharacterSet.unionSets(from:)`: folds `formUnion` over the sets, starting from the empty set. */
  method UnionSets(sets: seq<CharacterSet>) returns (cs: CharacterSet)
    ensures forall c :: cs(c) <==> exists k :: 0 <= k < |sets| && sets[k](c)
  {
    cs := c => false;
    for i := 0 to |sets|
      invariant forall c :: cs(c) <==> exists k :: 0 <= k < i && sets[k](c)
    {
      var before, next := cs, sets[i];
      cs := c => before(c) || next(c);
    }
  }

  // ----- addExtensionIfNeeded -----

  /**
   * The text after the last dot is not blank. Without a dot the component
   * examined is the empty string, which is blank.
   */
  predicate HasExtension(s: string)
    ensures HasExtension(s) ==> '.' in s && s[|s| - 1] != '.'
  {
    '.' in s && !IsBlank(LastComponent(s))
  }

  /** The string `addExtensionIfNeeded(ext)` leaves behind. */
  function ExtensionAdded(s: string, ext: string): (r: string)
    ensures |s| <= |r| <= |s| + 1 + |ext| && r[..|s|] == s
  {
    if HasExtension(s) then s
    else if s == [] || s[|s| - 1] != '.' then s + "." + ext
    else s + ext
  }

  /** A string without a dot gets a dot and the extension. */
  lemma ExtensionAddedWithoutDot(s: string, ext: string)
    requires '.' !in s
    ensures ExtensionAdded(s, ext) == DotJoin(s, ext)
  {
    assert s == [] || s[|s| - 1] in s;
  }

  /** A string ending in a dot gets just the extension. */
  lemma ExtensionAddedAfterTrailingDot(s: string, ext: string)
    requires s != [] && s[|s| - 1] == '.'
    ensures ExtensionAdded(s, ext) == s + ext
  {
    assert s[|s| - 1] in s;
  }

  /** A non-empty extension leaves the string unchanged exactly when the text after its last dot is not blank. */
  lemma ExtensionAddedKeepsExtension(s: string, ext: string)
    requires ext != []
    ensures ExtensionAdded(s, ext) == s <==> '.' in s && !IsBlank(LastComponent(s))
  {
    if !HasExtension(s) {
      assert |ExtensionAdded(s, ext)| > |s|;
    }
  }

  /** A path whose last component is a non-blank, dot-free extension is kept. */
  lemma ExtensionAddedOfDotJoin(left: string, ext: string)
    requires '.' !in ext && !IsBlank(ext)
    ensures ExtensionAdded(DotJoin(left, ext), ext) == DotJoin(left, ext)
  {
    var x := DotJoin(left, ext);
    assert x[|left|] in x;
    LastComponentOfDotJoin(left, ext);
  }

  /** When `addExtensionIfNeeded` changes a string, the result is its stem joined to the extension by one dot. */
  lemma ExtensionAddedChanged(s: string, ext: string)
    requires !HasExtension(s)
    ensures s == [] || s[|s| - 1] != '.' ==> ExtensionAdded(s, ext) == DotJoin(s, ext)
    ensures s != [] && s[|s| - 1] == '.' ==> ExtensionAdded(s, ext) == DotJoin(s[..|s| - 1], ext)
  {
    if s != [] && s[|s| - 1] == '.' {
      assert s == s[..|s| - 1] + [s[|s| - 1]];
    }
  }

  /** With a non-blank, dot-free extension a second call changes nothing. */
  lemma ExtensionAddedIdempotent(s: string, ext: string)
    requires '.' !in ext && !IsBlank(ext)
    ensures ExtensionAdded(ExtensionAdded(s, ext), ext) == ExtensionAdded(s, ext)
  {
    if !HasExtension(s) {
      ExtensionAddedChanged(s, ext);
      ExtensionAddedOfDotJoin(if s == [] || s[|s| - 1] != '.' then s else s[..|s| - 1], ext);
    }
  }

  // ----- reachLength -----

  /** `trailing` repeated `n` times. */
  function Repeat(trailing: string, n: nat): (r: string)
    ensures |r| == n * |trailing|
  {
    if n == 0 then [] else Repeat(trailing, n - 1) + trailing
  }

  /**
   * The string `reachLength(length, trailing:)` returns, as written: a longer
   * string is cut to `length`; a shorter one is padded by the loop over the
   * closed range `0...count`, which runs `count + 1` times.
   */
  function ReachedLength(s: string, length: nat, trailing: string): (r: string)
    ensures |s| > length ==> r == s[..length]
    ensures |s| == length ==> r == s
    ensures |s| < length ==> r == s + Repeat(trailing, length - |s| + 1)
  {
    if |s| > length then s[..length]
    else if |s| < length then s + Repeat(trailing, length - |s| + 1)
    else s
  }

  /** As written, padding with one character overshoots the requested length by one. */
  lemma ReachedLengthOvershoots(s: string, length: nat, trailing: string)
    requires |s| < length && |trailing| == 1
    ensures |ReachedLength(s, length, trailing)| == length + 1
  {
  }

  /** `"ab".reachLength(4)` gives five characters, not four. */
  lemma ReachedLengthExample()
    ensures ReachedLength("ab", 4, " ") == "ab   "
  {
    assert Repeat(" ", 3) == "   ";
  }

  /** The padding the documentation describes: exactly `length - count` copies of `trailing`. */
  function ReachedLengthIntended(s: string, length: nat, trailing: string): (r: string)
    ensures |s| >= length ==> r == s[..length]
    ensures |s| < length ==> r == s + Repeat(trailing, length - |s|)
  {
    if |s| > length then s[..length]
    else if |s| < length then s + Repeat(trailing, length - |s|)
    else s
  }

  /** Padding with one character reaches the requested length exactly, and the original is a prefix. */
  lemma ReachedLengthIntendedExact(s: string, length: nat, trailing: string)
    requires |trailing| == 1
    ensures |ReachedLengthIntended(s, length, trailing)| == length
    ensures |s| <= length ==> ReachedLengthIntended(s, length, trailing)[..|s|] == s
  {
  }

  /** A Swift `var` string edited in place by the `mutating` helpers. */
  class StringVar {
    var value: string

    constructor (value: string)
      ensures this.value == value
    {
      this.value := value;
    }

    /** `addExtensionIfNeeded(_:)`. */
    method AddExtensionIfNeeded(ext: string)
      modifies this
      ensures value == ExtensionAdded(old(value), ext)
    {
      var current := [];
      if '.' in value {
        current := LastComponent(value);
      }
      if IsBlank(current) {
        if value == [] || value[|value| - 1] != '.' {
          value := value + ".";
        }
        value := value + ext;
      }
    }

    /**
     * `reachLength(_:trailing:)`. A negative `length` makes the index
     * computation trap, so it is excluded. Truncation returns a prefix and
     * leaves the string alone; padding appends to the string itself.
     */
    method ReachLength(length: int, trailing: string) returns (r: string)
      requires length >= 0
      modifies this
      ensures r == ReachedLength(old(value), length, trailing)
      ensures value == if |old(value)| > length then old(value) else r
    {
      if |value| > length {
        r := value[..length];
      } else {
        if |value| < length {
          var count := length - |value|;
          ghost var s := value;
          for k := 0 to count + 1
            invariant value == s + Repeat(trailing, k)
          {
            value := value + trailing;
          }
        }
        r := value;
      }
    }
  }
}

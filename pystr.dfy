/**
 The Python string operations the dashboard relies on, and the shape of a
 table cell after `fillna(0)`. Only ASCII characters are given their Python
 meaning (whitespace, upper and lower case); every other character is left
 as it is by these functions.
 */
module PyStr {

  /** A cell of a pandas text column after `fillna(0)`: a string, or the
      number that replaced a missing value (or any other non-string). */
  datatype Cell = Text(s: string) | Number(v: real)

  /** Python truthiness of a cell: a non-empty string or a non-zero number. */
  predicate Truthy(c: Cell)
  {
    match c
    case Text(s) => s != ""
    case Number(v) => v != 0.0
  }

  /** `str.isspace()` on ASCII: tab, newline, vertical tab, form feed,
      carriage return, the separators 0x1C-0x1F and space. */
  predicate IsSpace(c: char)
  {
    9 <= c as int <= 13 || 28 <= c as int <= 32
  }

  predicate IsComma(c: char)
  {
    c == ','
  }

  predicate NoSpace(s: string)
  {
    forall k :: 0 <= k < |s| ==> !IsSpace(s[k])
  }

  // ---------------------------------------------------------------------
  // str.split() without a separator

  /** Length of the run of non-space characters at the start of `s`. */
  function WordLength(s: string): (n: nat)
    ensures n <= |s|
    ensures forall k :: 0 <= k < n ==> !IsSpace(s[k])
    ensures n < |s| ==> IsSpace(s[n])
  {
    if s == [] || IsSpace(s[0]) then 0 else 1 + WordLength(s[1..])
  }

  /** `s.split()`: the maximal runs of non-space characters of `s`, in order.
      Every word is non-empty and holds no whitespace. */
  function Split(s: string): (words: seq<string>)
    ensures forall w :: w in words ==> w != "" && NoSpace(w)
    decreases |s|
  {
    if s == [] then []
    else if IsSpace(s[0]) then Split(s[1..])
    else
      var n := WordLength(s);
      [s[..n]] + Split(s[n..])
  }

  /** `" ".join(words)` */
  function JoinSpace(words: seq<string>): string
  {
    if words == [] then ""
    else if |words| == 1 then words[0]
    else words[0] + " " + JoinSpace(words[1..])
  }

  lemma WordLengthOfWord(w: string, rest: string)
    requires w != "" && NoSpace(w)
    requires rest == "" || IsSpace(rest[0])
    ensures WordLength(w + rest) == |w|
  {
    var s := w + rest;
    assert forall k :: 0 <= k < |w| ==> s[k] == w[k];
    assert |w| < |s| ==> s[|w|] == rest[0];
  }

  /** Splitting words joined by single spaces gives the words back. */
  lemma {:induction false} SplitJoin(words: seq<string>)
    requires forall w :: w in words ==> w != "" && NoSpace(w)
    ensures Split(JoinSpace(words)) == words
    decreases |words|
  {
    if words == [] {
    } else if |words| == 1 {
      var w := words[0];
      assert w in words;
      WordLengthOfWord(w, "");
      assert w + "" == w;
      assert w[..|w|] == w;
      assert w[|w|..] == [];
    } else {
      var w, tail := words[0], JoinSpace(words[1..]);
      var s := w + " " + tail;
      assert w in words;
      assert forall v :: v in words[1..] ==> v in words;
      assert s == w + (" " + tail);
      WordLengthOfWord(w, " " + tail);
      assert s[..|w|] == w;
      assert s[|w|..] == " " + tail;
      assert (" " + tail)[1..] == tail;
      SplitJoin(words[1..]);
      assert words == [w] + words[1..];
    }
  }

  // ---------------------------------------------------------------------
  // str.strip() and str.strip(chars)

  /** `s.lstrip(chars)` for the characters `drop` accepts. */
  function TrimLeft(s: string, drop: char -> bool): string
  {
    if s != "" && drop(s[0]) then TrimLeft(s[1..], drop) else s
  }

  /** `s.rstrip(chars)` for the characters `drop` accepts. */
  function TrimRight(s: string, drop: char -> bool): string
  {
    if s != "" && drop(s[|s| - 1]) then TrimRight(s[..|s| - 1], drop) else s
  }

  /** `lstrip` keeps a suffix of `s` that does not start with a dropped
      character, and everything it removed is one. */
  lemma {:induction false} TrimLeftSpec(s: string, drop: char -> bool)
    ensures var r := TrimLeft(s, drop);
      |r| <= |s| && r == s[|s| - |r|..] &&
      (r != "" ==> !drop(r[0])) &&
      (forall k :: 0 <= k < |s| - |r| ==> drop(s[k]))
    decreases |s|
  {
    if s != "" && drop(s[0]) {
      TrimLeftSpec(s[1..], drop);
    }
  }

  /** `rstrip` keeps a prefix of `s` that does not end with a dropped
      character, and everything it removed is one. */
  lemma {:induction false} TrimRightSpec(s: string, drop: char -> bool)
    ensures var r := TrimRight(s, drop);
      |r| <= |s| && r == s[..|r|] &&
      (r != "" ==> !drop(r[|r| - 1])) &&
      (forall k :: |r| <= k < |s| ==> drop(s[k]))
    decreases |s|
  {
    if s != "" && drop(s[|s| - 1]) {
      TrimRightSpec(s[..|s| - 1], drop);
    }
  }

  /** `s.strip(chars)`: drops the accepted characters at both ends. The
      result is no longer than `s` and neither starts nor ends with a dropped
      character. */
  function Strip(s: string, drop: char -> bool): (r: string)
    ensures |r| <= |s|
    ensures r != "" ==> !drop(r[0]) && !drop(r[|r| - 1])
  {
    TrimLeftSpec(s, drop);
    TrimRightSpec(TrimLeft(s, drop), drop);
    TrimRight(TrimLeft(s, drop), drop)
  }

  /** What `strip` keeps is the contiguous part `s[i..j]` of `s` that neither
      starts nor ends with a dropped character; all it removed was dropped. */
  lemma StripSpec(s: string, drop: char -> bool) returns (i: nat, j: nat)
    ensures i <= j <= |s| && Strip(s, drop) == s[i..j]
    ensures Strip(s, drop) != "" ==> !drop(s[i]) && !drop(s[j - 1])
    ensures forall k :: 0 <= k < i || j <= k < |s| ==> drop(s[k])
  {
    var t := TrimLeft(s, drop);
    TrimLeftSpec(s, drop);
    TrimRightSpec(t, drop);
    var r := TrimRight(t, drop);
    i, j := |s| - |t|, |s| - |t| + |r|;
    assert r == s[i..j];
    forall k | j <= k < |s|
      ensures drop(s[k])
    {
      assert s[k] == t[k - i];
    }
  }

  // ---------------------------------------------------------------------
  // str.capitalize()

  predicate IsLowerAscii(c: char) { 'a' <= c <= 'z' }

  predicate IsUpperAscii(c: char) { 'A' <= c <= 'Z' }

  function Upper(c: char): (u: char)
    ensures !IsLowerAscii(u)
    ensures IsSpace(u) == IsSpace(c) && (u == ',' <==> c == ',')
  {
    if IsLowerAscii(c) then (c as int - 32) as char else c
  }

  function Lower(c: char): (l: char)
    ensures !IsUpperAscii(l)
    ensures IsSpace(l) == IsSpace(c) && (l == ',' <==> c == ',')
  {
    if IsUpperAscii(c) then (c as int + 32) as char else c
  }

  /** `s.capitalize()`: the first character upper-case, the others lower-case. */
  function Capitalize(s: string): (r: string)
    ensures |r| == |s|
    ensures r != "" ==> r[0] == Upper(s[0])
    ensures forall k :: 1 <= k < |r| ==> r[k] == Lower(s[k])
  {
    if s == "" then ""
    else [Upper(s[0])] + seq(|s| - 1, k requires 0 <= k < |s| - 1 => Lower(s[k + 1]))
  }

  /** What `capitalize()` produces: no lower-case first letter and no
      upper-case letter after it. */
  predicate IsCapitalized(s: string)
  {
    (s != "" ==> !IsLowerAscii(s[0])) &&
    forall k :: 1 <= k < |s| ==> !IsUpperAscii(s[k])
  }

  /** Capitalizing gives a capitalized string that differs from the input
      only in the case of its letters, and capitalizing twice changes nothing
      more. */
  lemma CapitalizeProperties(s: string)
    ensures IsCapitalized(Capitalize(s))
    ensures forall k :: 0 <= k < |s| ==> Lower(Capitalize(s)[k]) == Lower(s[k])
    ensures Capitalize(Capitalize(s)) == Capitalize(s)
  {
    var r := Capitalize(s);
    forall k | 0 <= k < |s|
      ensures Lower(r[k]) == Lower(s[k])
    {
      if k == 0 {
        assert Lower(Upper(s[0])) == Lower(s[0]);
      }
    }
    var rr := Capitalize(r);
    assert |rr| == |r|;
    forall k | 0 <= k < |r|
      ensures rr[k] == r[k]
    {
    }
  }

  // ---------------------------------------------------------------------
  // `needle in hay` (a literal str.contains)

  /** `needle in hay`: `needle` occurs in `hay` as a contiguous run, so it is
      no longer than `hay`. */
  predicate Contains(hay: string, needle: string)
    ensures Contains(hay, needle) ==> |needle| <= |hay|
    decreases |hay|
  {
    needle <= hay || (hay != "" && Contains(hay[1..], needle))
  }

  /** `Contains` holds exactly when `needle` starts at some position of `hay`. */
  lemma {:induction false} ContainsAt(hay: string, needle: string)
    ensures Contains(hay, needle) <==> exists i :: 0 <= i <= |hay| && needle <= hay[i..]
    decreases |hay|
  {
    if Contains(hay, needle) {
      if needle <= hay {
        assert hay[0..] == hay;
      } else {
        ContainsAt(hay[1..], needle);
        var i :| 0 <= i <= |hay[1..]| && needle <= hay[1..][i..];
        assert hay[1..][i..] == hay[i + 1..];
      }
    }
    if exists i :: 0 <= i <= |hay| && needle <= hay[i..] {
      var i :| 0 <= i <= |hay| && needle <= hay[i..];
      if i == 0 {
        assert hay[0..] == hay;
      } else {
        ContainsAt(hay[1..], needle);
        assert hay[1..][i - 1..] == hay[i..];
      }
    }
  }

  /** Every string contains the empty string and each of its parts. */
  lemma ContainsPart(a: string, needle: string, b: string)
    ensures Contains(a + needle + b, needle)
  {
    var hay := a + needle + b;
    assert needle <= hay[|a|..];
    ContainsAt(hay, needle);
  }

  // ---------------------------------------------------------------------
  // str.replace(c, "")

  /** `s.replace(c, "")` for a one-character `c`. */
  function RemoveChar(s: string, c: char): (r: string)
    ensures c !in r
    ensures |r| <= |s|
  {
    if s == "" then ""
    else (if s[0] == c then "" else [s[0]]) + RemoveChar(s[1..], c)
  }

  /** Every other character is kept. */
  lemma {:induction false} RemoveCharKeeps(s: string, c: char, x: char)
    requires x != c
    ensures x in RemoveChar(s, c) <==> x in s
    decreases |s|
  {
    if s != "" {
      RemoveCharKeeps(s[1..], c, x);
      assert x in s <==> x == s[0] || x in s[1..];
    }
  }

  /** Removing a character distributes over concatenation. */
  lemma {:induction false} RemoveCharConcat(a: string, b: string, c: char)
    ensures RemoveChar(a + b, c) == RemoveChar(a, c) + RemoveChar(b, c)
    decreases |a|
  {
    if a != "" {
      assert (a + b)[1..] == a[1..] + b;
      RemoveCharConcat(a[1..], b, c);
    } else {
      assert a + b == b;
    }
  }

  /** A string without `c` is left unchanged. */
  lemma {:induction false} RemoveCharAbsent(s: string, c: char)
    requires c !in s
    ensures RemoveChar(s, c) == s
    decreases |s|
  {
    if s != "" {
      RemoveCharAbsent(s[1..], c);
      assert s == [s[0]] + s[1..];
    }
  }
}

/**
 * String primitives the scripts take from Python: ASCII lower-casing,
 * newline replacement, deletion of `string.punctuation`, `str.split`
 * on one separator character, `str.join` and the substring test `in`.
 */
module Text {

  datatype Option<T> = None | Some(value: T)

  /** The token add_memes records after a span that ends its token list. */
  const Sentinel: string := "N/A"

  /** Python's `string.punctuation`, the 32 ASCII punctuation characters. */
  const Punctuation: string := "!\"#$%&'()*+,-./:;<=>?@[\\]^_`{|}~"

  predicate IsUpper(c: char) {
    'A' <= c <= 'Z'
  }

  /** `str.lower` restricted to ASCII. */
  function LowerChar(c: char): (r: char)
    ensures !IsUpper(r)
    ensures !IsUpper(c) ==> r == c
  {
    if IsUpper(c) then (c as int + 32) as char else c
  }

  /** `s.lower()`: each character lower-cased in place. */
  function Lower(s: string): (r: string)
    ensures |r| == |s|
    ensures forall i {:trigger r[i], LowerChar(s[i])} :: 0 <= i < |s| ==> r[i] == LowerChar(s[i])
    ensures forall c :: c in r ==> !IsUpper(c)
  {
    if s == [] then [] else [LowerChar(s[0])] + Lower(s[1..])
  }

  /** What `replace('\n', ' ')` makes of one character. */
  function NewlineToSpace(c: char): (r: char)
    ensures r != '\n'
    ensures c != '\n' ==> r == c
  {
    if c == '\n' then ' ' else c
  }

  /** `s.replace('\n', ' ')`: each newline becomes a space in place. */
  function ReplaceNewlines(s: string): (r: string)
    ensures |r| == |s|
    ensures forall i {:trigger r[i], NewlineToSpace(s[i])} :: 0 <= i < |s| ==> r[i] == NewlineToSpace(s[i])
    ensures '\n' !in r
    ensures forall c :: c in r ==> c in s || c == ' '
  {
    if s == [] then []
    else [NewlineToSpace(s[0])] + ReplaceNewlines(s[1..])
  }

  /** `s.translate(str.maketrans('', '', string.punctuation))`. */
  function StripPunctuation(s: string): (r: string)
    ensures |r| <= |s|
    ensures forall c :: c in r ==> c in s && c !in Punctuation
    ensures forall i {:trigger s[i]} :: 0 <= i < |s| && s[i] !in Punctuation ==> s[i] in r
  {
    if s == [] then []
    else (if s[0] in Punctuation then [] else [s[0]]) + StripPunctuation(s[1..])
  }

  /** Deleting punctuation works piece by piece, so the kept characters stay in order. */
  lemma {:induction false} StripPunctuationConcat(a: string, b: string)
    ensures StripPunctuation(a + b) == StripPunctuation(a) + StripPunctuation(b)
    decreases |a|
  {
    if a == [] {
      assert a + b == b;
    } else {
      assert (a + b)[0] == a[0];
      assert (a + b)[1..] == a[1..] + b;
      StripPunctuationConcat(a[1..], b);
    }
  }

  /**
   * `s.split(sep)` for a one-character separator: consecutive separators
   * give empty pieces and the result is never empty.
   */
  function Split(s: string, sep: char): (r: seq<string>)
    ensures |r| >= 1
    ensures forall piece :: piece in r ==> sep !in piece
    ensures forall piece, c :: piece in r && c in piece ==> c in s
    decreases |s|
  {
    if s == [] then [""]
    else if s[0] == sep then [""] + Split(s[1..], sep)
    else
      var rest := Split(s[1..], sep);
      [[s[0]] + rest[0]] + rest[1..]
  }

  /** `sep.join(parts)`. */
  function Join(parts: seq<string>, sep: char): string
    decreases |parts|
  {
    if |parts| == 0 then ""
    else if |parts| == 1 then parts[0]
    else parts[0] + [sep] + Join(parts[1..], sep)
  }

  /** Joining the pieces of a split with the same separator gives back the string. */
  lemma {:induction false} SplitJoin(s: string, sep: char)
    ensures Join(Split(s, sep), sep) == s
    decreases |s|
  {
    if s == [] {
    } else if s[0] == sep {
      var rest := Split(s[1..], sep);
      SplitJoin(s[1..], sep);
      assert ([""] + rest)[1..] == rest;
      assert s == [sep] + s[1..];
    } else {
      var rest := Split(s[1..], sep);
      SplitJoin(s[1..], sep);
      var r := [[s[0]] + rest[0]] + rest[1..];
      if |rest| == 1 {
        assert s == [s[0]] + s[1..];
      } else {
        assert r[1..] == rest[1..];
        assert Join(rest, sep) == rest[0] + [sep] + Join(rest[1..], sep);
        assert s == [s[0]] + s[1..];
      }
    }
  }

  /** The pieces of a split that are not empty, in order. */
  function NonEmpty(pieces: seq<string>): (r: seq<string>)
    ensures |r| <= |pieces|
    ensures forall t :: t in r ==> t != "" && t in pieces
    ensures forall t :: t in pieces && t != "" ==> t in r
  {
    if pieces == [] then []
    else (if pieces[0] == "" then [] else [pieces[0]]) + NonEmpty(pieces[1..])
  }

  /** Python's `sub in s`; the empty string is in every string. */
  predicate Contains(s: string, sub: string)
    decreases |s|
  {
    (|sub| <= |s| && s[..|sub|] == sub) || (s != [] && Contains(s[1..], sub))
  }

  lemma {:induction false} LowerIdentity(s: string)
    requires forall c :: c in s ==> !IsUpper(c)
    ensures Lower(s) == s
    decreases |s|
  {
    if s != [] {
      assert s[0] in s;
      assert forall c :: c in s[1..] ==> c in s;
      LowerIdentity(s[1..]);
      assert s == [s[0]] + s[1..];
    }
  }

  lemma {:induction false} ReplaceNewlinesIdentity(s: string)
    requires '\n' !in s
    ensures ReplaceNewlines(s) == s
    decreases |s|
  {
    if s != [] {
      assert s[0] in s;
      assert '\n' !in s[1..] by {
        assert forall c :: c in s[1..] ==> c in s;
      }
      ReplaceNewlinesIdentity(s[1..]);
      assert s == [s[0]] + s[1..];
    }
  }

  /** Every character of a contained string occurs in the containing one. */
  lemma {:induction false} ContainsChars(s: string, sub: string)
    requires Contains(s, sub)
    ensures forall c :: c in sub ==> c in s
    decreases |s|
  {
    if |sub| <= |s| && s[..|sub|] == sub {
      assert forall c :: c in sub ==> c in s[..|sub|];
    } else {
      ContainsChars(s[1..], sub);
    }
  }

  /** A string contains each of its prefixes and suffixes. */
  lemma {:induction false} ContainsAffixes(a: string, b: string)
    ensures Contains(a + b, a) && Contains(a + b, b)
    decreases |a|
  {
    assert (a + b)[..|a|] == a;
    if a == [] {
      assert (a + b)[..|b|] == b;
    } else {
      assert (a + b)[1..] == a[1..] + b;
      ContainsAffixes(a[1..], b);
    }
  }
}

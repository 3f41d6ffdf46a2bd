/**
  Normalisation of the selected word into a component name: `replace(/-(\w)/g, ...)` turns
  every `-x` into `X`, then `slice(0, 1).toUpperCase() + slice(1)` upper-cases the first
  character.
 */
module Normalize {
  import opened Text

  /** A `-` immediately followed by a word character starts at index `i`. */
  predicate PairAt(s: string, i: nat) {
    i + 1 < |s| && s[i] == '-' && IsWordChar(s[i + 1])
  }

  /**
    The global replacement of `/-(\w)/g`: scanning left to right, each `-` followed by a
    word character is replaced by that character upper-cased, and the scan resumes after it.
   */
  function CamelCase(s: string): (r: string)
    ensures |r| == |s| - HyphenPairs(s)
    decreases |s|
  {
    if PairAt(s, 0) then
      assert s[1..][1..] == s[2..];
      assert !PairAt(s[1..], 0);
      [ToUpper(s[1])] + CamelCase(s[2..])
    else if s == [] then []
    else [s[0]] + CamelCase(s[1..])
  }

  /**
    Upper-cases the first character and leaves the rest alone: the result never starts with
    a lower-case letter, and a word that already does not is returned unchanged.
   */
  function Capitalize(s: string): (r: string)
    ensures |r| == |s|
    ensures s != [] ==> r[0] == ToUpper(s[0]) && r[1..] == s[1..]
    ensures s != [] ==> !IsLower(r[0])
    ensures (s == [] || !IsLower(s[0])) ==> r == s
  {
    if s == [] then [] else [ToUpper(s[0])] + s[1..]
  }

  /** Capitalising twice is capitalising once. */
  lemma CapitalizeIdempotent(s: string)
    ensures Capitalize(Capitalize(s)) == Capitalize(s)
  {
  }

  /**
    The identifier the lookup compares against import bindings: one character shorter per
    replaced pair, non-empty when the word is, and never starting with a lower-case letter.
   */
  function NormalizeWord(word: string): (r: string)
    ensures |r| == |word| - HyphenPairs(word)
    ensures word != [] ==> r != [] && !IsLower(r[0])
  {
    HyphenPairsBound(word);
    Capitalize(CamelCase(word))
  }

  /** The number of positions holding a `-` followed by a word character. */
  function HyphenPairs(s: string): nat
    decreases |s|
  {
    if s == [] then 0
    else (if PairAt(s, 0) then 1 else 0) + HyphenPairs(s[1..])
  }

  /** Every `-` in `s` is followed by a word character. */
  predicate HyphensJoinWords(s: string) {
    forall i :: 0 <= i < |s| && s[i] == '-' ==> PairAt(s, i)
  }

  /** A word of the registered word pattern `\w+(-\w+)*`. */
  predicate IsWordToken(s: string) {
    |s| > 0 && IsWordChar(s[0]) &&
    (forall i :: 0 <= i < |s| ==> IsWordChar(s[i]) || s[i] == '-') &&
    HyphensJoinWords(s)
  }

  function RemoveHyphens(s: string): (r: string)
    ensures '-' !in r
  {
    if s == [] then [] else (if s[0] == '-' then [] else [s[0]]) + RemoveHyphens(s[1..])
  }

  /** Fewer pairs than characters in a non-empty word: each pair takes two characters. */
  lemma {:induction false} HyphenPairsBound(s: string)
    ensures s != [] ==> HyphenPairs(s) < |s|
    decreases |s|
  {
    if |s| > 1 {
      HyphenPairsBound(s[1..]);
      if PairAt(s, 0) {
        assert s[1] != '-';
        assert !PairAt(s[1..], 0);
        if |s| > 2 {
          HyphenPairsBound(s[2..]);
          assert s[1..][1..] == s[2..];
        }
      }
    }
  }

  /** A word without any hyphen is left unchanged by the replacement. */
  lemma {:induction false} CamelCaseNoHyphen(s: string)
    requires '-' !in s
    ensures CamelCase(s) == s
    decreases |s|
  {
    if s != [] {
      assert s[0] != '-';
      CamelCaseNoHyphen(s[1..]);
    }
  }

  /** A word without any hyphen only has its first character changed by normalisation. */
  lemma NormalizeNoHyphen(s: string)
    requires '-' !in s
    ensures |NormalizeWord(s)| == |s|
    ensures s != [] ==> NormalizeWord(s)[0] == ToUpper(s[0]) && NormalizeWord(s)[1..] == s[1..]
  {
    CamelCaseNoHyphen(s);
  }

  /** When every hyphen joins two words, the replacement removes all hyphens. */
  lemma {:induction false} CamelCaseRemovesHyphens(s: string)
    requires HyphensJoinWords(s)
    ensures '-' !in CamelCase(s)
    decreases |s|
  {
    if PairAt(s, 0) {
      assert HyphensJoinWords(s[2..]) by {
        forall i | 0 <= i < |s[2..]| && s[2..][i] == '-' ensures PairAt(s[2..], i) {
          assert PairAt(s, i + 2);
        }
      }
      CamelCaseRemovesHyphens(s[2..]);
      assert ToUpper(s[1]) != '-';
    } else if s != [] {
      assert s[0] != '-';
      assert HyphensJoinWords(s[1..]) by {
        forall i | 0 <= i < |s[1..]| && s[1..][i] == '-' ensures PairAt(s[1..], i) {
          assert PairAt(s, i + 1);
        }
      }
      CamelCaseRemovesHyphens(s[1..]);
    }
  }

  /** Up to ASCII case, the replacement only drops the hyphens of a word-pattern token. */
  lemma {:induction false} CamelCaseDropsHyphens(s: string)
    requires HyphensJoinWords(s)
    ensures FoldCase(CamelCase(s)) == FoldCase(RemoveHyphens(s))
    decreases |s|
  {
    if PairAt(s, 0) {
      assert HyphensJoinWords(s[2..]) by {
        forall i | 0 <= i < |s[2..]| && s[2..][i] == '-' ensures PairAt(s[2..], i) {
          assert PairAt(s, i + 2);
        }
      }
      CamelCaseDropsHyphens(s[2..]);
      assert s[1..][1..] == s[2..];
      assert s[1] != '-';
      assert RemoveHyphens(s) == [s[1]] + RemoveHyphens(s[2..]);
      assert ToLower(ToUpper(s[1])) == ToLower(s[1]);
      assert FoldCase(CamelCase(s)) == [ToLower(s[1])] + FoldCase(CamelCase(s[2..]));
    } else if s != [] {
      assert s[0] != '-';
      assert HyphensJoinWords(s[1..]) by {
        forall i | 0 <= i < |s[1..]| && s[1..][i] == '-' ensures PairAt(s[1..], i) {
          assert PairAt(s, i + 1);
        }
      }
      CamelCaseDropsHyphens(s[1..]);
      assert FoldCase(CamelCase(s)) == [ToLower(s[0])] + FoldCase(CamelCase(s[1..]));
    }
  }

  /** Normalising a word-pattern token yields a name with no hyphen. */
  lemma NormalizeHasNoHyphen(s: string)
    requires IsWordToken(s)
    ensures '-' !in NormalizeWord(s)
  {
    CamelCaseRemovesHyphens(s);
    var c := CamelCase(s);
    if c != [] {
      assert NormalizeWord(s) == [ToUpper(c[0])] + c[1..];
      assert ToUpper(c[0]) != '-';
    }
  }

  /** Normalisation is idempotent on the tokens the editor's word pattern can select. */
  lemma NormalizeIdempotent(s: string)
    requires IsWordToken(s)
    ensures NormalizeWord(NormalizeWord(s)) == NormalizeWord(s)
  {
    NormalizeHasNoHyphen(s);
    var n := NormalizeWord(s);
    CamelCaseNoHyphen(n);
    if n != [] {
      assert ToUpper(n[0]) == n[0];
    }
  }

  /** Outside the word pattern normalisation is not idempotent: "a--b" gives "A-B", then "AB". */
  lemma NormalizeNotIdempotentInGeneral()
    ensures NormalizeWord("a--b") == "A-B"
    ensures NormalizeWord("A-B") == "AB"
  {
    assert !PairAt("a--b", 0) && !PairAt("--b", 0) && PairAt("-b", 0);
    assert CamelCase("b") == "b";
    assert CamelCase("-b") == "B";
    assert CamelCase("--b") == "-B";
    assert CamelCase("a--b") == "a-B";
    assert PairAt("-B", 0);
    assert CamelCase("B") == "B";
    assert CamelCase("A-B") == "AB";
  }

  /** A kebab-case tag name: `my-button` becomes `MyButton`. */
  lemma NormalizeKebabExample()
    ensures NormalizeWord("my-button") == "MyButton"
  {
    KebabCamelCase();
    var c := CamelCase("my-button");
    assert Capitalize(c) == [ToUpper('m')] + c[1..];
  }

  /** The replacement alone on `my-button`: one pair, `-b` becomes `B`. */
  lemma KebabCamelCase()
    ensures CamelCase("my-button") == "myButton"
  {
    SegmentStep("my", 'b', "utton");
    CamelCaseNoHyphen("utton");
    assert "my-button" == "my" + ['-', 'b'] + "utton";
    assert "myButton" == "my" + [ToUpper('b')] + "utton";
  }

  /** Segments joined by `-`, as a kebab-case tag name writes them. */
  function Kebab(segs: seq<string>): (r: string)
    ensures |segs| > 0 ==> |segs[0]| <= |r| && r[..|segs[0]|] == segs[0]
    decreases |segs|
  {
    if segs == [] then []
    else if |segs| == 1 then segs[0]
    else segs[0] + "-" + Kebab(segs[1..])
  }

  /** Each segment with its first character upper-cased, concatenated. */
  function CapitalizeEach(segs: seq<string>): string
    decreases |segs|
  {
    if segs == [] then [] else Capitalize(segs[0]) + CapitalizeEach(segs[1..])
  }

  /**
    A kebab-case word of any number of hyphen-free segments, every one after the first
    starting with a word character: the replacement keeps the first segment and upper-cases
    the first character of each later one.
   */
  lemma {:induction false} CamelCaseKebab(segs: seq<string>)
    requires |segs| > 0
    requires forall k :: 0 <= k < |segs| ==> '-' !in segs[k]
    requires forall k :: 0 < k < |segs| ==> segs[k] != [] && IsWordChar(segs[k][0])
    ensures CamelCase(Kebab(segs)) == segs[0] + CapitalizeEach(segs[1..])
    decreases |segs|
  {
    if |segs| == 1 {
      CamelCaseNoHyphen(segs[0]);
      assert segs[1..] == [];
    } else {
      var rest := segs[1..];
      CamelCaseKebab(rest);
      KebabCons(segs);
      JoinSegment(segs[0], rest[0], Kebab(rest), CapitalizeEach(rest[1..]));
    }
  }

  /** Unfolding both joins once, for a word of at least two segments. */
  lemma KebabCons(segs: seq<string>)
    requires |segs| > 1 && segs[1] != []
    ensures Kebab(segs) == segs[0] + "-" + Kebab(segs[1..])
    ensures Kebab(segs[1..])[0] == segs[1][0]
    ensures segs[0] + CapitalizeEach(segs[1..]) ==
      segs[0] + Capitalize(segs[1]) + CapitalizeEach(segs[1..][1..])
  {
    assert Kebab(segs[1..])[..|segs[1]|] == segs[1];
  }

  /**
    Normalising a kebab-case word capitalises every segment: `el-date-picker` becomes
    `El` + `Date` + `Picker`.
   */
  lemma NormalizeKebab(segs: seq<string>)
    requires |segs| > 0 && segs[0] != []
    requires forall k :: 0 <= k < |segs| ==> '-' !in segs[k]
    requires forall k :: 0 < k < |segs| ==> segs[k] != [] && IsWordChar(segs[k][0])
    ensures NormalizeWord(Kebab(segs)) == CapitalizeEach(segs)
  {
    CamelCaseKebab(segs);
    CapitalizePrefix(segs[0], CapitalizeEach(segs[1..]));
  }

  /** Only the first character is touched, so capitalising distributes over a non-empty prefix. */
  lemma CapitalizePrefix(x: string, e: string)
    requires x != []
    ensures Capitalize(x + e) == Capitalize(x) + e
  {
    assert (x + e)[1..] == x[1..] + e;
  }

  /**
    The step of CamelCaseKebab: a hyphen-free `first`, a `-`, then a word `w` starting like
    the segment `seg` and replaced to `seg + e`.
   */
  lemma {:induction false} JoinSegment(first: string, seg: string, w: string, e: string)
    requires '-' !in first && seg != [] && IsWordChar(seg[0])
    requires w != [] && w[0] == seg[0] && CamelCase(w) == seg + e
    ensures CamelCase(first + "-" + w) == first + Capitalize(seg) + e
  {
    HyphenThenWord(first, w);
    DropLeadingPlain(w, seg, e);
    CapitalizeSplit(first, seg, e);
  }

  /** Capitalising a segment is upper-casing its first character in place. */
  lemma CapitalizeSplit(first: string, seg: string, e: string)
    requires seg != []
    ensures first + [ToUpper(seg[0])] + (seg[1..] + e) == first + Capitalize(seg) + e
  {
  }

  /** SegmentStep for a word `w` written out after the hyphen. */
  lemma HyphenThenWord(first: string, w: string)
    requires '-' !in first && w != [] && IsWordChar(w[0])
    ensures CamelCase(first + "-" + w) == first + [ToUpper(w[0])] + CamelCase(w[1..])
  {
    assert first + "-" + w == first + ['-', w[0]] + w[1..];
    SegmentStep(first, w[0], w[1..]);
  }

  /** A word starting with a character other than `-` keeps it, so the rest is replaced to the rest. */
  lemma DropLeadingPlain(w: string, seg: string, e: string)
    requires w != [] && seg != [] && w[0] == seg[0] && seg[0] != '-'
    requires CamelCase(w) == seg + e
    ensures CamelCase(w[1..]) == seg[1..] + e
  {
    assert w == [w[0]] + w[1..];
    CamelCasePlain(w[0], w[1..]);
    assert (seg + e)[1..] == seg[1..] + e;
  }

  /**
    One `-` and a word character after a hyphen-free head: the replacement keeps the head,
    upper-cases that character and carries on with the rest of the word.
   */
  lemma {:induction false} SegmentStep(head: string, c: char, tail: string)
    requires '-' !in head && IsWordChar(c)
    ensures CamelCase(head + ['-', c] + tail) == head + [ToUpper(c)] + CamelCase(tail)
    decreases |head|
  {
    if head == [] {
      assert [] + ['-', c] + tail == ['-', c] + tail;
      CamelCasePair(c, tail);
    } else {
      assert '-' !in head[1..] by {
        forall x | x in head[1..] ensures x != '-' {
          assert x in head;
        }
      }
      SegmentStep(head[1..], c, tail);
      var inner := head[1..] + ['-', c] + tail;
      assert head + ['-', c] + tail == [head[0]] + inner;
      CamelCasePlain(head[0], inner);
      assert [head[0]] + (head[1..] + [ToUpper(c)] + CamelCase(tail)) == head + [ToUpper(c)] + CamelCase(tail);
    }
  }

  /** A plain tag name: `icon` becomes `Icon`. */
  lemma NormalizePlainExample()
    ensures NormalizeWord("icon") == "Icon"
  {
    CamelCaseNoHyphen("icon");
  }

  /** A character other than `-` is copied. */
  lemma CamelCasePlain(c: char, rest: string)
    requires c != '-'
    ensures CamelCase([c] + rest) == [c] + CamelCase(rest)
  {
    assert ([c] + rest)[1..] == rest;
  }

  /** A `-` followed by a word character is replaced by that character upper-cased. */
  lemma CamelCasePair(c: char, rest: string)
    requires IsWordChar(c)
    ensures CamelCase(['-', c] + rest) == [ToUpper(c)] + CamelCase(rest)
  {
    assert (['-', c] + rest)[2..] == rest;
  }
}

/** The two answer normalisers of the quiz
    (src/components/mrt-challenge-game.tsx:22-26).

    `normalize` lower-cases its input and deletes every run of characters
    matched by `[\s\W_'-]`; `normalizeChinese` deletes every run of `\s`.
    Characters are modelled as ASCII plus everything else: lower-casing
    touches only `A`-`Z`, and every non-ASCII character is a non-word
    character. The JavaScript `\s` class is modelled exactly. */
module Text {

  predicate IsUpper(c: char) { 'A' <= c <= 'Z' }
  predicate IsLower(c: char) { 'a' <= c <= 'z' }
  predicate IsDigit(c: char) { '0' <= c <= '9' }

  /** `\w` without the underscore: the characters `normalize` keeps. */
  predicate IsAlnum(c: char) { IsUpper(c) || IsLower(c) || IsDigit(c) }

  /** What `normalize` can output. */
  predicate IsLowerAlnum(c: char) { IsLower(c) || IsDigit(c) }

  /** The JavaScript `\s` class: WhiteSpace and LineTerminator of ECMAScript. */
  predicate IsSpace(c: char) {
    || c == '\t' || c == '\n' || c == '\U{000B}' || c == '\U{000C}' || c == '\r'
    || c == ' ' || c == '\U{00A0}' || c == '\U{1680}'
    || ('\U{2000}' <= c <= '\U{200A}')
    || c == '\U{2028}' || c == '\U{2029}' || c == '\U{202F}' || c == '\U{205F}'
    || c == '\U{3000}' || c == '\U{FEFF}'
  }

  /** `toLowerCase` on one character (ASCII letters only). */
  function Lower(c: char): (r: char)
    ensures IsUpper(c) ==> IsLower(r) && r as int == c as int + 32
    ensures !IsUpper(c) ==> r == c
  {
    if IsUpper(c) then (c as int + 32) as char else c
  }

  /** What one input character contributes to the normalised answer. */
  function Kept(c: char): seq<char> {
    if IsAlnum(c) then [Lower(c)] else []
  }

  /** `normalize`: lower-case, then drop every character outside `[a-z0-9]`. */
  function Normalize(s: string): (r: string)
    ensures |r| <= |s|
    ensures forall i :: 0 <= i < |r| ==> IsLowerAlnum(r[i])
  {
    if s == [] then [] else Kept(s[0]) + Normalize(s[1..])
  }

  /** `normalizeChinese`: drop every whitespace character, keep the rest in
      order. Every non-space character keeps its number of occurrences. */
  function NormalizeChinese(s: string): (r: string)
    ensures |r| <= |s|
    ensures forall i :: 0 <= i < |r| ==> !IsSpace(r[i])
  {
    if s == [] then [] else (if IsSpace(s[0]) then [] else [s[0]]) + NormalizeChinese(s[1..])
  }

  // ---------------------------------------------------------------------
  // normalize

  lemma {:induction false} NormalizeAppend(a: string, b: string)
    ensures Normalize(a + b) == Normalize(a) + Normalize(b)
  {
    if a != [] {
      assert (a + b)[0] == a[0] && (a + b)[1..] == a[1..] + b;
      NormalizeAppend(a[1..], b);
      assert Normalize(a + b) == Kept(a[0]) + (Normalize(a[1..]) + Normalize(b));
    } else {
      assert a + b == b;
    }
  }

  /** A string is left unchanged by `normalize` exactly when it consists of
      lower-case ASCII letters and digits. */
  lemma {:induction false} NormalizeFixedPoint(s: string)
    ensures Normalize(s) == s <==> forall i :: 0 <= i < |s| ==> IsLowerAlnum(s[i])
  {
    if s != [] {
      NormalizeFixedPoint(s[1..]);
      if IsAlnum(s[0]) {
        assert Normalize(s) == [Lower(s[0])] + Normalize(s[1..]);
        if forall i :: 0 <= i < |s| ==> IsLowerAlnum(s[i]) {
          assert forall i :: 0 <= i < |s[1..]| ==> IsLowerAlnum(s[1..][i]) by {
            forall i | 0 <= i < |s[1..]| ensures IsLowerAlnum(s[1..][i]) {
              assert s[1..][i] == s[i + 1];
            }
          }
          assert s == [s[0]] + s[1..];
        }
      } else {
        assert Normalize(s) == Normalize(s[1..]);
        assert |Normalize(s[1..])| <= |s[1..]| < |s|;
      }
    }
  }

  /** Normalising twice is the same as normalising once. */
  lemma NormalizeIdempotent(s: string)
    ensures Normalize(Normalize(s)) == Normalize(s)
  {
    NormalizeFixedPoint(Normalize(s));
  }

  /** Two strings that agree character by character up to case and up to
      which characters are dropped normalise to the same answer. */
  lemma {:induction false} NormalizeCharwise(a: string, b: string)
    requires |a| == |b|
    requires forall i :: 0 <= i < |a| ==> Kept(a[i]) == Kept(b[i])
    ensures Normalize(a) == Normalize(b)
  {
    if a != [] {
      assert forall i :: 0 <= i < |a[1..]| ==> a[1..][i] == a[i + 1] && b[1..][i] == b[i + 1];
      NormalizeCharwise(a[1..], b[1..]);
    }
  }

  /** Whitespace never matters to `normalize`. */
  lemma {:induction false} NormalizeIgnoresSpace(s: string)
    ensures Normalize(NormalizeChinese(s)) == Normalize(s)
  {
    if s != [] {
      NormalizeIgnoresSpace(s[1..]);
      var head := if IsSpace(s[0]) then [] else [s[0]];
      NormalizeAppend(head, NormalizeChinese(s[1..]));
      if !IsSpace(s[0]) {
        assert Normalize(head) == Kept(s[0]) + Normalize([]);
      } else {
        assert !IsAlnum(s[0]);
      }
    }
  }

  /** Deleting one character that is not a letter or digit, wherever it
      stands, does not change the normalised answer. */
  lemma NormalizeDropsNonWord(a: string, c: char, b: string)
    requires !IsAlnum(c)
    ensures Normalize(a + [c] + b) == Normalize(a + b)
  {
    NormalizeAppend(a + [c], b);
    NormalizeAppend(a, [c]);
    NormalizeAppend(a, b);
    assert Normalize([c]) == [];
    assert Normalize(a + [c]) == Normalize(a);
  }

  /** Case and punctuation do not matter: "Jurong East" and "JURONG-EAST"
      are one answer. */
  lemma JurongEastHyphenated(s: string, t: string)
    requires s == "Jurong East" && t == "JURONG-EAST"
    ensures Normalize(s) == Normalize(t)
  {
    NormalizeCharwise(s, t);
  }

  /** Runs of whitespace do not matter: "Jurong East" and "Jurong   East"
      are one answer. */
  lemma JurongEastWideSpaced(s: string, t: string)
    requires s == "Jurong East" && t == "Jurong   East"
    ensures Normalize(s) == Normalize(t)
  {
    var w, e := "Jurong", "East";
    assert t == w + [' '] + ([' ', ' '] + e);
    NormalizeDropsNonWord(w, ' ', [' ', ' '] + e);
    assert w + ([' ', ' '] + e) == w + [' '] + ([' '] + e);
    NormalizeDropsNonWord(w, ' ', [' '] + e);
    assert w + ([' '] + e) == s;
  }

  // ---------------------------------------------------------------------
  // normalizeChinese

  lemma {:induction false} NormalizeChineseAppend(a: string, b: string)
    ensures NormalizeChinese(a + b) == NormalizeChinese(a) + NormalizeChinese(b)
  {
    if a != [] {
      assert (a + b)[0] == a[0] && (a + b)[1..] == a[1..] + b;
      NormalizeChineseAppend(a[1..], b);
      var head := if IsSpace(a[0]) then [] else [a[0]];
      assert NormalizeChinese(a + b) == head + (NormalizeChinese(a[1..]) + NormalizeChinese(b));
    } else {
      assert a + b == b;
    }
  }

  /** A string is left unchanged by `normalizeChinese` exactly when it holds
      no whitespace. */
  lemma {:induction false} NormalizeChineseFixedPoint(s: string)
    ensures NormalizeChinese(s) == s <==> forall i :: 0 <= i < |s| ==> !IsSpace(s[i])
  {
    if s != [] {
      NormalizeChineseFixedPoint(s[1..]);
      if !IsSpace(s[0]) {
        if forall i :: 0 <= i < |s| ==> !IsSpace(s[i]) {
          assert forall i :: 0 <= i < |s[1..]| ==> s[1..][i] == s[i + 1];
          assert s == [s[0]] + s[1..];
        }
      } else {
        assert |NormalizeChinese(s[1..])| <= |s[1..]| < |s|;
      }
    }
  }

  lemma NormalizeChineseIdempotent(s: string)
    ensures NormalizeChinese(NormalizeChinese(s)) == NormalizeChinese(s)
  {
    NormalizeChineseFixedPoint(NormalizeChinese(s));
  }

  /** Every character that is not whitespace keeps its number of
      occurrences; every whitespace character is gone. */
  lemma {:induction false} NormalizeChineseCounts(s: string, c: char)
    ensures multiset(NormalizeChinese(s))[c] == if IsSpace(c) then 0 else multiset(s)[c]
  {
    if s != [] {
      var rest := s[1..];
      NormalizeChineseCounts(rest, c);
      assert s == [s[0]] + rest;
      assert multiset(s) == multiset{s[0]} + multiset(rest);
      if IsSpace(s[0]) {
        assert NormalizeChinese(s) == NormalizeChinese(rest);
      } else {
        assert multiset(NormalizeChinese(s)) == multiset{s[0]} + multiset(NormalizeChinese(rest));
      }
    }
  }

  /** Deleting whitespace keeps the other characters in their order: the
      result is the input with the whitespace characters removed, one at a
      time, wherever they stand. */
  lemma NormalizeChineseDropsOneSpace(a: string, c: char, b: string)
    requires IsSpace(c)
    ensures NormalizeChinese(a + [c] + b) == NormalizeChinese(a + b)
  {
    NormalizeChineseAppend(a + [c], b);
    NormalizeChineseAppend(a, [c]);
    NormalizeChineseAppend(a, b);
    assert NormalizeChinese([c]) == [];
  }
}

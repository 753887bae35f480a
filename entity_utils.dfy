/**
 * Matching a user's entity name to a dataset label: a forgiving key
 * (accents, case, spaces and punctuation dropped) and an exact lookup of that
 * key among the labels. A name that has no exact key match is never resolved;
 * the error only carries suggestions.
 */
module EntityUtils {
  import opened Outcomes
  import opened Sorting
  import RowUtils

  // ---------------------------------------------------------------- normalize_entity_name

  const Grave: char := '\U{0300}'
  const Acute: char := '\U{0301}'
  const Circumflex: char := '\U{0302}'
  const Tilde: char := '\U{0303}'
  const Macron: char := '\U{0304}'
  const Diaeresis: char := '\U{0308}'
  const RingAbove: char := '\U{030A}'
  const Cedilla: char := '\U{0327}'
  const FractionSlash: char := '\U{2044}'

  /** The base letter (upper case) and combining mark of the Latin-1 letter at `offset` from U+00C0 (or U+00E0). */
  function LatinLetter(offset: int): (d: Option<(char, char)>)
    ensures d.Some? ==> 'A' <= d.value.0 <= 'Z' && d.value.1 >= 128 as char
  {
    if 0 <= offset <= 5 then Some(('A', [Grave, Acute, Circumflex, Tilde, Diaeresis, RingAbove][offset]))
    else if offset == 7 then Some(('C', Cedilla))
    else if 8 <= offset <= 11 then Some(('E', [Grave, Acute, Circumflex, Diaeresis][offset - 8]))
    else if 12 <= offset <= 15 then Some(('I', [Grave, Acute, Circumflex, Diaeresis][offset - 12]))
    else if offset == 17 then Some(('N', Tilde))
    else if 18 <= offset <= 22 then Some(('O', [Grave, Acute, Circumflex, Tilde, Diaeresis][offset - 18]))
    else if 25 <= offset <= 28 then Some(('U', [Grave, Acute, Circumflex, Diaeresis][offset - 25]))
    else if offset == 29 then Some(('Y', Acute))
    else None
  }

  /**
   * The compatibility decomposition (Unicode normalization form KD) of one
   * character, for the Latin-1 range U+00A0..U+00FF; every other character is
   * its own decomposition here.
   */
  function Decompose(c: char): (d: string)
    ensures c < 128 as char ==> d == [c]
  {
    if c == '\U{00FF}' then ['y', Diaeresis]
    else if '\U{00C0}' <= c <= '\U{00FF}' then
      var lower := c >= '\U{00E0}';
      var letter := LatinLetter(c as int - if lower then 0xE0 else 0xC0);
      if letter.None? then [c]
      else [if lower then (letter.value.0 as int + 32) as char else letter.value.0, letter.value.1]
    else if c == '\U{00A0}' then [' ']
    else if c == '\U{00A8}' then [' ', Diaeresis]
    else if c == '\U{00AA}' then ['a']
    else if c == '\U{00AF}' then [' ', Macron]
    else if c == '\U{00B2}' then ['2']
    else if c == '\U{00B3}' then ['3']
    else if c == '\U{00B4}' then [' ', Acute]
    else if c == '\U{00B5}' then ['\U{03BC}']
    else if c == '\U{00B8}' then [' ', Cedilla]
    else if c == '\U{00B9}' then ['1']
    else if c == '\U{00BA}' then ['o']
    else if c == '\U{00BC}' then ['1', FractionSlash, '4']
    else if c == '\U{00BD}' then ['1', FractionSlash, '2']
    else if c == '\U{00BE}' then ['3', FractionSlash, '4']
    else [c]
  }

  /** `unicodedata.normalize("NFKD", s)`, character by character. */
  function Nfkd(s: string): string
  {
    if |s| == 0 then [] else Decompose(s[0]) + Nfkd(s[1..])
  }

  /** `s.encode("ascii", "ignore").decode("ascii")`: every non-ASCII character is dropped. */
  function AsciiOnly(s: string): string
  {
    if |s| == 0 then [] else (if s[0] < 128 as char then [s[0]] else []) + AsciiOnly(s[1..])
  }

  function LowerChar(c: char): char
  {
    if 'A' <= c <= 'Z' then (c as int + 32) as char else c
  }

  /** `s.lower()` on an ASCII string. */
  function Lower(s: string): string
  {
    if |s| == 0 then [] else [LowerChar(s[0])] + Lower(s[1..])
  }

  /** `lower()` maps each character on its own. */
  lemma {:induction false} LowerChars(s: string)
    ensures |Lower(s)| == |s|
    ensures forall i :: 0 <= i < |s| ==> Lower(s)[i] == LowerChar(s[i])
  {
    if |s| > 0 {
      LowerChars(s[1..]);
    }
  }

  /** A character the key may contain: `[a-z0-9]`. */
  predicate IsKeyChar(c: char)
  {
    'a' <= c <= 'z' || '0' <= c <= '9'
  }

  /** `re.sub(r"[^a-z0-9]+", "", s)`. */
  function StripNonAlnum(s: string): string
  {
    if |s| == 0 then [] else (if IsKeyChar(s[0]) then [s[0]] else []) + StripNonAlnum(s[1..])
  }

  /** Only `a`-`z` and `0`-`9` survive the substitution. */
  lemma {:induction false} StripNonAlnumKeyChars(s: string)
    ensures forall i :: 0 <= i < |StripNonAlnum(s)| ==> IsKeyChar(StripNonAlnum(s)[i])
  {
    if |s| > 0 {
      StripNonAlnumKeyChars(s[1..]);
    }
  }

  /** `normalize_entity_name`: the key names are compared by. */
  function Normalize(name: string): string
  {
    StripNonAlnum(Lower(AsciiOnly(Nfkd(name))))
  }

  /** A key is made only of `a`-`z` and `0`-`9`. */
  lemma NormalizeKeyChars(name: string)
    ensures forall i :: 0 <= i < |Normalize(name)| ==> IsKeyChar(Normalize(name)[i])
  {
    StripNonAlnumKeyChars(Lower(AsciiOnly(Nfkd(name))));
  }

  lemma {:induction false} NfkdAppend(a: string, b: string)
    ensures Nfkd(a + b) == Nfkd(a) + Nfkd(b)
  {
    if |a| == 0 {
      assert a + b == b;
    } else {
      assert (a + b)[1..] == a[1..] + b;
      NfkdAppend(a[1..], b);
    }
  }

  lemma {:induction false} AsciiOnlyAppend(a: string, b: string)
    ensures AsciiOnly(a + b) == AsciiOnly(a) + AsciiOnly(b)
  {
    if |a| == 0 {
      assert a + b == b;
    } else {
      assert (a + b)[1..] == a[1..] + b;
      AsciiOnlyAppend(a[1..], b);
    }
  }

  lemma {:induction false} LowerAppend(a: string, b: string)
    ensures Lower(a + b) == Lower(a) + Lower(b)
  {
    if |a| == 0 {
      assert a + b == b;
    } else {
      assert (a + b)[1..] == a[1..] + b;
      LowerAppend(a[1..], b);
    }
  }

  lemma {:induction false} StripNonAlnumAppend(a: string, b: string)
    ensures StripNonAlnum(a + b) == StripNonAlnum(a) + StripNonAlnum(b)
  {
    if |a| == 0 {
      assert a + b == b;
    } else {
      assert (a + b)[1..] == a[1..] + b;
      StripNonAlnumAppend(a[1..], b);
    }
  }

  /** Normalisation works character by character: the key of a concatenation is the concatenation of the keys. */
  lemma NormalizeAppend(a: string, b: string)
    ensures Normalize(a + b) == Normalize(a) + Normalize(b)
  {
    NfkdAppend(a, b);
    AsciiOnlyAppend(Nfkd(a), Nfkd(b));
    LowerAppend(AsciiOnly(Nfkd(a)), AsciiOnly(Nfkd(b)));
    StripNonAlnumAppend(Lower(AsciiOnly(Nfkd(a))), Lower(AsciiOnly(Nfkd(b))));
  }

  /** A string made only of key characters is its own key. */
  lemma {:induction false} NormalizeKeepsKey(s: string)
    requires forall i :: 0 <= i < |s| ==> IsKeyChar(s[i])
    ensures Normalize(s) == s
  {
    if |s| > 0 {
      NormalizeKeepsKey(s[1..]);
      NormalizeAppend([s[0]], s[1..]);
      assert [s[0]] + s[1..] == s;
      assert Normalize([s[0]]) == [s[0]] by {
        assert Nfkd([s[0]]) == [s[0]] by { assert Nfkd([s[0]][1..]) == []; }
        assert AsciiOnly([s[0]]) == [s[0]] by { assert AsciiOnly([s[0]][1..]) == []; }
        assert Lower([s[0]]) == [s[0]] by { assert Lower([s[0]][1..]) == []; }
        assert StripNonAlnum([s[0]]) == [s[0]] by { assert StripNonAlnum([s[0]][1..]) == []; }
      }
    }
  }

  /** Normalising is idempotent. */
  lemma NormalizeIdempotent(name: string)
    ensures Normalize(Normalize(name)) == Normalize(name)
  {
    NormalizeKeyChars(name);
    NormalizeKeepsKey(Normalize(name));
  }

  /** The key of a single ASCII character: its lower-case form when that is a letter or digit, else nothing. */
  function AsciiCharKey(c: char): string
  {
    if IsKeyChar(LowerChar(c)) then [LowerChar(c)] else []
  }

  lemma NormalizeAsciiChar(c: char)
    requires c < 128 as char
    ensures Normalize([c]) == AsciiCharKey(c)
  {
    assert [c][1..] == [];
    assert Decompose(c) == [c];
    assert Nfkd([c]) == [c] + Nfkd([]);
    assert AsciiOnly([c]) == [c] + AsciiOnly([]);
    assert Lower([c]) == [LowerChar(c)] + Lower([]);
    assert [LowerChar(c)][1..] == [];
    assert StripNonAlnum([LowerChar(c)]) == AsciiCharKey(c) + StripNonAlnum([]);
  }

  /** On ASCII input the key keeps the letters (lower-cased) and digits and drops everything else. */
  lemma {:induction false} NormalizeAscii(s: string)
    requires forall i :: 0 <= i < |s| ==> s[i] < 128 as char
    ensures Normalize(s) == AsciiKey(s)
  {
    if |s| > 0 {
      NormalizeAscii(s[1..]);
      NormalizeAppend([s[0]], s[1..]);
      NormalizeAsciiChar(s[0]);
      assert [s[0]] + s[1..] == s;
    }
  }

  /** The key of an ASCII string, character by character. */
  function AsciiKey(s: string): string
  {
    if |s| == 0 then [] else AsciiCharKey(s[0]) + AsciiKey(s[1..])
  }

  /** Upper-case ASCII letters give the same key as their lower-case forms. */
  lemma NormalizeIgnoresCase(a: string, c: char, b: string)
    requires 'A' <= c <= 'Z'
    ensures Normalize(a + [c] + b) == Normalize(a + [LowerChar(c)] + b)
  {
    NormalizeAppend(a + [c], b);
    NormalizeAppend(a, [c]);
    NormalizeAppend(a + [LowerChar(c)], b);
    NormalizeAppend(a, [LowerChar(c)]);
    NormalizeAsciiChar(c);
    NormalizeAsciiChar(LowerChar(c));
  }

  /** ASCII spaces and punctuation (anything but letters and digits) add nothing to the key. */
  lemma NormalizeIgnoresPunctuation(a: string, c: char, b: string)
    requires c < 128 as char && !IsKeyChar(LowerChar(c))
    ensures Normalize(a + [c] + b) == Normalize(a + b)
  {
    NormalizeAppend(a + [c], b);
    NormalizeAppend(a, [c]);
    NormalizeAppend(a, b);
    NormalizeAsciiChar(c);
  }

  /** The example "Brazil" maps to "brazil". */
  lemma NormalizeBrazil()
    ensures Normalize("Brazil") == "brazil"
  {
    LettersKey("Brazil");
    LowerChars("Brazil");
  }

  /** An accented Latin-1 letter gives the key of its base letter: "S\u00e3o" and "Sao" share a key. */
  lemma NormalizeDropsAccent(c: char)
    requires '\U{00C0}' <= c <= '\U{00FE}' && c != '\U{00F7}'
    requires LatinLetter(c as int - if c >= '\U{00E0}' then 0xE0 else 0xC0).Some?
    ensures Normalize([c]) == [LowerChar(LatinLetter(c as int - if c >= '\U{00E0}' then 0xE0 else 0xC0).value.0)]
  {
    var letter := LatinLetter(c as int - if c >= '\U{00E0}' then 0xE0 else 0xC0).value;
    var base := if c >= '\U{00E0}' then (letter.0 as int + 32) as char else letter.0;
    assert [c][1..] == [];
    assert 'a' <= base <= 'z' || 'A' <= base <= 'Z';
    assert Nfkd([c]) == [base, letter.1] + Nfkd([]);
    assert [base, letter.1] + Nfkd([]) == [base, letter.1];
    assert AsciiOnly([base, letter.1]) == [base] by {
      assert [base, letter.1][1..] == [letter.1];
      assert [letter.1][1..] == [];
      assert AsciiOnly([letter.1]) == [] + AsciiOnly([]);
      assert AsciiOnly([base, letter.1]) == [base] + AsciiOnly([letter.1]);
    }
    assert Normalize([c]) == StripNonAlnum(Lower([base]));
    assert Lower([base]) == [LowerChar(base)] + Lower([]) by { assert [base][1..] == []; }
    assert StripNonAlnum([LowerChar(base)]) == [LowerChar(base)] + StripNonAlnum([]) by { assert [LowerChar(base)][1..] == []; }
  }

  /** U+00FF (y with diaeresis), the one Latin-1 letter outside the upper/lower table, gives the key "y". */
  lemma NormalizeYDiaeresis()
    ensures Normalize(['\U{00FF}']) == "y"
  {
    var c := '\U{00FF}';
    assert [c][1..] == [];
    assert Nfkd([c]) == ['y', Diaeresis] + Nfkd([]);
    assert AsciiOnly(['y', Diaeresis]) == ['y'] by {
      assert ['y', Diaeresis][1..] == [Diaeresis];
      assert [Diaeresis][1..] == [];
      assert AsciiOnly([Diaeresis]) == [] + AsciiOnly([]);
    }
    assert Lower(['y']) == [LowerChar('y')] + Lower([]) by { assert ['y'][1..] == []; }
    assert StripNonAlnum(['y']) == ['y'] + StripNonAlnum([]) by { assert ['y'][1..] == []; }
  }

  predicate IsAsciiLetter(c: char)
  {
    'A' <= c <= 'Z' || 'a' <= c <= 'z'
  }

  /** A name made only of ASCII letters has its lower-case form as key. */
  lemma {:induction false} LettersKey(s: string)
    requires forall i :: 0 <= i < |s| ==> IsAsciiLetter(s[i])
    ensures Normalize(s) == Lower(s)
  {
    if |s| > 0 {
      LettersKey(s[1..]);
      NormalizeAppend([s[0]], s[1..]);
      NormalizeAsciiChar(s[0]);
      assert [s[0]] + s[1..] == s;
    }
  }

  lemma NormalizeBrazl()
    ensures Normalize("Brazl") == "brazl"
  {
    LettersKey("Brazl");
    LowerChars("Brazl");
  }

  lemma NormalizeCanada()
    ensures Normalize("Canada") == "canada"
  {
    LettersKey("Canada");
    LowerChars("Canada");
  }

  lemma NormalizeAngola()
    ensures Normalize("Angola") == "angola"
  {
    LettersKey("Angola");
    LowerChars("Angola");
  }

  /** The key of ASCII text without letters or digits is empty. */
  lemma {:induction false} NormalizeBlank(pad: string)
    requires forall i :: 0 <= i < |pad| ==> pad[i] < 128 as char && !IsKeyChar(LowerChar(pad[i]))
    ensures Normalize(pad) == []
  {
    if |pad| > 0 {
      NormalizeBlank(pad[1..]);
      NormalizeAppend([pad[0]], pad[1..]);
      NormalizeAsciiChar(pad[0]);
      assert [pad[0]] + pad[1..] == pad;
    }
  }

  /** Leading and trailing ASCII blanks and punctuation do not change the key: "  Brazil  " has the key of "Brazil". */
  lemma NormalizeIgnoresPadding(before: string, name: string, after: string)
    requires forall i :: 0 <= i < |before| ==> before[i] < 128 as char && !IsKeyChar(LowerChar(before[i]))
    requires forall i :: 0 <= i < |after| ==> after[i] < 128 as char && !IsKeyChar(LowerChar(after[i]))
    ensures Normalize(before + name + after) == Normalize(name)
  {
    NormalizeBlank(before);
    NormalizeBlank(after);
    NormalizeAppend(before + name, after);
    NormalizeAppend(before, name);
  }

  /** The two words of a two-word ASCII name, joined by a space, key to the two lower-case words run together. */
  lemma NormalizeSpacedWords(first: string, second: string, key: string)
    requires first == "United" && second == "States" && key == "unitedstates"
    ensures Normalize(first + [' '] + second) == key
  {
    NormalizeIgnoresPunctuation(first, ' ', second);
    NormalizeAppend(first, second);
    LettersKey(first);
    LowerChars(first);
    LettersKey(second);
    LowerChars(second);
  }

  /** "United States" keys to "unitedstates": the space goes and the capitals are lowered. */
  lemma NormalizeUnitedStates()
    ensures Normalize("United States") == "unitedstates"
  {
    NormalizeSpacedWords("United", "States", "unitedstates");
    assert "United" + [' '] + "States" == "United States";
  }

  /** The pieces of "São": the accent is stripped and the capital lowered. */
  lemma NormalizeAccentedWord(s: string, a: char, o: string)
    requires s == "S" && a == '\U{00E3}' && o == "o"
    ensures Normalize(s + [a] + o) == "sao"
  {
    NormalizeAppend(s + [a], o);
    NormalizeAppend(s, [a]);
    NormalizeDropsAccent(a);
    LettersKey(s);
    LowerChars(s);
    LettersKey(o);
    LowerChars(o);
  }

  /** The pieces of "São Paulo": the accent is stripped, the space goes and the capitals are lowered. */
  lemma NormalizeAccentedWords(s: string, a: char, o: string, paulo: string)
    requires s == "S" && a == '\U{00E3}' && o == "o" && paulo == "Paulo"
    ensures Normalize(s + [a] + o + [' '] + paulo) == "saopaulo"
  {
    var sao := s + [a] + o;
    NormalizeIgnoresPunctuation(sao, ' ', paulo);
    NormalizeAppend(sao, paulo);
    NormalizeAccentedWord(s, a, o);
    LettersKey(paulo);
    LowerChars(paulo);
  }

  /** "São Paulo" keys to "saopaulo". */
  lemma NormalizeSaoPaulo()
    ensures Normalize("S\U{00E3}o Paulo") == "saopaulo"
  {
    NormalizeAccentedWords("S", '\U{00E3}', "o", "Paulo");
    assert "S" + ['\U{00E3}'] + "o" + [' '] + "Paulo" == "S\U{00E3}o Paulo";
  }

  /** The example "  Brazil  ", with two spaces on each side, maps to "brazil". */
  lemma NormalizePaddedBrazil()
    ensures Normalize("  Brazil  ") == "brazil"
  {
    assert "  Brazil  " == "  " + "Brazil" + "  ";
    NormalizeIgnoresPadding("  ", "Brazil", "  ");
    NormalizeBrazil();
  }

  // ---------------------------------------------------------------- match_entity_name

  /** A string-similarity score (difflib's `SequenceMatcher(None, b=word, a=x).ratio()`), supplied by the caller. */
  type Similarity = (string, string) -> real

  const MaxSuggestions: nat := 5
  const Cutoff: real := 0.6

  /** The index of the last label whose key is `key`, or -1 when there is none. */
  function LastWithKey(entities: seq<string>, key: string): (i: int)
    ensures -1 <= i < |entities|
    ensures i >= 0 ==> Normalize(entities[i]) == key
    ensures forall j :: i < j < |entities| ==> Normalize(entities[j]) != key
  {
    LastBelow(entities, key, |entities|)
  }

  /** The last of the first `n` labels with key `key`, or -1. */
  function LastBelow(entities: seq<string>, key: string, n: nat): (i: int)
    requires n <= |entities|
    ensures -1 <= i < n
    ensures i >= 0 ==> Normalize(entities[i]) == key
    ensures forall j :: i < j < n ==> Normalize(entities[j]) != key
  {
    if n == 0 then -1
    else if Normalize(entities[n - 1]) == key then n - 1
    else LastBelow(entities, key, n - 1)
  }

  /** `{normalize_entity_name(e): e for e in entity_list}`: a later label overwrites an earlier one with the same key. */
  function KeyMap(entities: seq<string>): (m: map<string, string>)
    ensures forall key :: key in m <==> LastWithKey(entities, key) >= 0
    ensures forall key :: key in m ==> m[key] == entities[LastWithKey(entities, key)]
  {
    KeyMapBelow(entities, |entities|)
  }

  /** The dict built from the first `n` labels. */
  function KeyMapBelow(entities: seq<string>, n: nat): (m: map<string, string>)
    requires n <= |entities|
    ensures forall key :: key in m <==> LastBelow(entities, key, n) >= 0
    ensures forall key :: key in m ==> m[key] == entities[LastBelow(entities, key, n)]
  {
    if n == 0 then map[] else KeyMapBelow(entities, n - 1)[Normalize(entities[n - 1]) := entities[n - 1]]
  }

  /** The possibilities whose score against `word` reaches the cutoff, in their order. */
  function AboveCutoff(word: string, possibilities: seq<string>, similarity: Similarity): (r: seq<string>)
    ensures forall x :: x in r <==> x in possibilities && similarity(x, word) >= Cutoff
    ensures |r| <= |possibilities|
  {
    if |possibilities| == 0 then []
    else
      var x := possibilities[0];
      (if similarity(x, word) >= Cutoff then [x] else []) + AboveCutoff(word, possibilities[1..], similarity)
  }

  /** How difflib ranks a possibility: by the pair (score, possibility). */
  function ScoreKey(word: string, similarity: Similarity): string -> SortKey
  {
    x => SortKey(similarity(x, word), x)
  }

  /**
   * `difflib.get_close_matches(word, possibilities, n=5, cutoff=0.6)`: the
   * possibilities scoring at least 0.6, best first (ties by the larger
   * possibility), at most five.
   */
  function CloseMatches(word: string, possibilities: seq<string>, similarity: Similarity): (r: seq<string>)
    ensures |r| == Min(MaxSuggestions, |AboveCutoff(word, possibilities, similarity)|)
    ensures forall x :: x in r ==> x in possibilities && similarity(x, word) >= Cutoff
    ensures Sorted(r, ScoreKey(word, similarity), true)
  {
    var scored := AboveCutoff(word, possibilities, similarity);
    var ranked := SortBy(scored, ScoreKey(word, similarity), true);
    SortByPermutes(scored, ScoreKey(word, similarity), true);
    SortBySorted(scored, ScoreKey(word, similarity), true);
    SortByLength(scored, ScoreKey(word, similarity), true);
    var r := TakePrefix(ranked, MaxSuggestions);
    assert forall x :: x in r ==> x in multiset(ranked);
    r
  }

  /** When at most five possibilities reach the cutoff, every one of them is returned. */
  lemma CloseMatchesComplete(word: string, possibilities: seq<string>, similarity: Similarity, x: string)
    requires |AboveCutoff(word, possibilities, similarity)| <= MaxSuggestions
    requires x in possibilities && similarity(x, word) >= Cutoff
    ensures x in CloseMatches(word, possibilities, similarity)
  {
    var scored := AboveCutoff(word, possibilities, similarity);
    var ranked := SortBy(scored, ScoreKey(word, similarity), true);
    SortByLength(scored, ScoreKey(word, similarity), true);
    SortByKeepsMembers(scored, ScoreKey(word, similarity), true, x);
    assert CloseMatches(word, possibilities, similarity) == TakePrefix(ranked, MaxSuggestions);
  }

  /** The matches are the best ones: a qualifying possibility left out ranks no higher than any match. */
  lemma CloseMatchesBest(word: string, possibilities: seq<string>, similarity: Similarity, x: string)
    requires x in AboveCutoff(word, possibilities, similarity)
    requires x !in CloseMatches(word, possibilities, similarity)
    ensures forall i :: 0 <= i < |CloseMatches(word, possibilities, similarity)| ==>
              !Before(ScoreKey(word, similarity), true, x, CloseMatches(word, possibilities, similarity)[i])
  {
    var scored := AboveCutoff(word, possibilities, similarity);
    var ranked := SortBy(scored, ScoreKey(word, similarity), true);
    var r := CloseMatches(word, possibilities, similarity);
    SortBySorted(scored, ScoreKey(word, similarity), true);
    SortByKeepsMembers(scored, ScoreKey(word, similarity), true, x);
    assert r == TakePrefix(ranked, MaxSuggestions);
    var m :| 0 <= m < |ranked| && ranked[m] == x;
    forall i | 0 <= i < |r|
      ensures !Before(ScoreKey(word, similarity), true, x, r[i])
    {
      assert r[i] == ranked[i];
    }
  }

  /** The labels of the close keys: `[normalized_to_entity[s] for s in suggestions]`. */
  function Suggestions(key: string, entities: seq<string>, similarity: Similarity): (names: seq<string>)
    ensures |names| <= MaxSuggestions
    ensures forall n :: n in names ==> n in entities
  {
    var m := KeyMap(entities);
    var close := CloseMatches(key, RowUtils.UniqueOf(entities, Normalize, None), similarity);
    assert forall s :: s in close ==> s in m by {
      forall s | s in close
        ensures s in m
      {
        RowUtils.UniqueOfMembers(entities, Normalize, None, s);
      }
    }
    seq(|close|, i requires 0 <= i < |close| => m[close[i]])
  }

  /**
   * `match_entity_name`: the label whose key equals the query's key (the last
   * such label when several share it); otherwise an unknown-entity error
   * carrying at most five suggested labels.
   */
  function MatchEntityName(query: string, entities: seq<string>, similarity: Similarity): (r: Result<string>)
    ensures r.Ok? <==> exists i :: 0 <= i < |entities| && Normalize(entities[i]) == Normalize(query)
    ensures r.Ok? ==> r.value in entities && Normalize(r.value) == Normalize(query)
    ensures r.Err? ==> r.error.UnknownEntity? && |r.error.suggestions| <= MaxSuggestions
    ensures r.Err? ==> forall n :: n in r.error.suggestions ==> n in entities
  {
    var m := KeyMap(entities);
    var key := Normalize(query);
    if key in m then Ok(m[key])
    else Err(UnknownEntity(Suggestions(key, entities, similarity)))
  }

  /** With several labels sharing the query's key, the last of them is returned. */
  lemma MatchLastWins(query: string, entities: seq<string>, similarity: Similarity, i: nat)
    requires i < |entities| && Normalize(entities[i]) == Normalize(query)
    requires forall j :: i < j < |entities| ==> Normalize(entities[j]) != Normalize(query)
    ensures MatchEntityName(query, entities, similarity) == Ok(entities[i])
  {
    var last := LastWithKey(entities, Normalize(query));
    assert last == i;
  }

  /** The key map and the distinct keys of two labels with different keys. */
  lemma {:induction false} TwoCandidateKeys(a: string, b: string)
    requires Normalize(a) != Normalize(b)
    ensures KeyMap([a, b]) == map[Normalize(a) := a, Normalize(b) := b]
    ensures RowUtils.UniqueOf([a, b], Normalize, None) == [Normalize(a), Normalize(b)]
  {
    var entities := [a, b];
    assert KeyMapBelow(entities, 1) == map[Normalize(a) := a] by {
      assert KeyMapBelow(entities, 0) == map[];
    }
    assert KeyMap(entities) == KeyMapBelow(entities, 1)[Normalize(b) := b];
    assert entities[..1] == [a];
    assert entities[..1][..0] == [];
    assert RowUtils.UniqueOf(entities[..1], Normalize, None) == [Normalize(a)];
  }

  /**
   * A query whose key matches neither of two candidates is answered with
   * suggestions, and every candidate whose key scores at least 0.6 against
   * the query's key is among them.
   */
  lemma MisspeltQuerySuggests(query: string, a: string, b: string, similarity: Similarity)
    requires Normalize(a) != Normalize(b)
    requires Normalize(query) != Normalize(a) && Normalize(query) != Normalize(b)
    ensures MatchEntityName(query, [a, b], similarity).Err?
    ensures forall c :: c in [a, b] && similarity(Normalize(c), Normalize(query)) >= Cutoff ==>
              c in MatchEntityName(query, [a, b], similarity).error.suggestions
  {
    TwoCandidateKeys(a, b);
    var key := Normalize(query);
    var keys := RowUtils.UniqueOf([a, b], Normalize, None);
    var close := CloseMatches(key, keys, similarity);
    forall c | c in [a, b] && similarity(Normalize(c), key) >= Cutoff
      ensures c in MatchEntityName(query, [a, b], similarity).error.suggestions
    {
      CloseMatchesComplete(key, keys, similarity, Normalize(c));
      var i :| 0 <= i < |close| && close[i] == Normalize(c);
      assert Suggestions(key, [a, b], similarity)[i] == c;
    }
  }

  /** "Brazl" is not a known name, and "Brazil" is suggested for it when "brazil" scores at least 0.6 against "brazl". */
  lemma BrazlSuggestsBrazil(similarity: Similarity)
    requires similarity("brazil", "brazl") >= Cutoff
    ensures MatchEntityName("Brazl", ["Brazil", "Canada"], similarity).Err?
    ensures "Brazil" in MatchEntityName("Brazl", ["Brazil", "Canada"], similarity).error.suggestions
  {
    NormalizeBrazil();
    NormalizeBrazl();
    NormalizeCanada();
    var candidates := ["Brazil", "Canada"];
    assert candidates[0] == "Brazil";
    assert similarity(Normalize("Brazil"), Normalize("Brazl")) >= Cutoff;
    MisspeltQuerySuggests("Brazl", "Brazil", "Canada", similarity);
  }

  /** No candidates means no match. */
  lemma MatchEmptyFails(query: string, similarity: Similarity)
    ensures MatchEntityName(query, [], similarity) == Err(UnknownEntity([]))
  {
  }
}

/** The pieces of Python's string handling that the filter relies on:
    `pat in s`, `s.split(sep)`, `sep.join(parts)`, `re.sub('\W+', ' ', s)`
    and `s.strip(c)`. Strings are sequences of characters. */
module Text {
  import opened Wrappers

  /** `pat` occurs in `s` starting at index `i`. */
  predicate OccursAt(s: string, pat: string, i: nat)
  {
    i + |pat| <= |s| && s[i..i + |pat|] == pat
  }

  /** The first index at or after `from` where `pat` occurs in `s`. */
  function FindFrom(s: string, pat: string, from: nat): (r: Option<nat>)
    decreases |s| - from
    ensures r.Some? ==> from <= r.value && OccursAt(s, pat, r.value)
    ensures r.Some? ==> forall j :: from <= j < r.value ==> !OccursAt(s, pat, j)
    ensures r.None? ==> forall j :: from <= j ==> !OccursAt(s, pat, j)
  {
    if from + |pat| > |s| then None
    else if s[from..from + |pat|] == pat then Some(from)
    else FindFrom(s, pat, from + 1)
  }

  /** The first occurrence of `pat` in `s`, where `s.split(pat)` cuts first. */
  function Find(s: string, pat: string): (r: Option<nat>)
    ensures r.Some? ==> OccursAt(s, pat, r.value)
    ensures r.Some? ==> forall j :: 0 <= j < r.value ==> !OccursAt(s, pat, j)
    ensures r.None? ==> forall j :: 0 <= j ==> !OccursAt(s, pat, j)
  {
    FindFrom(s, pat, 0)
  }

  /** Python's `pat in s`. */
  predicate Contains(s: string, pat: string)
    ensures Contains(s, pat) <==> exists i: nat :: OccursAt(s, pat, i)
  {
    Find(s, pat).Some?
  }

  /** For a single character, `[c] in s` is membership of `c`. */
  lemma ContainsChar(s: string, c: char)
    ensures Contains(s, [c]) <==> c in s
  {
    if c in s {
      var i :| 0 <= i < |s| && s[i] == c;
      assert s[i..i + 1] == [c];
      assert OccursAt(s, [c], i);
    }
    if Contains(s, [c]) {
      var i := Find(s, [c]).value;
      assert s[i..i + 1][0] == s[i];
    }
  }

  /** A prefix that ends before the first occurrence of `pat` holds no occurrence. */
  lemma NoOccurrenceBefore(s: string, pat: string, i: nat)
    requires pat != [] && i <= |s|
    requires forall j :: 0 <= j < i ==> !OccursAt(s, pat, j)
    ensures !Contains(s[..i], pat)
  {
    if Contains(s[..i], pat) {
      var j := Find(s[..i], pat).value;
      assert s[..i][j..j + |pat|] == s[j..j + |pat|];
      assert OccursAt(s, pat, j);
      assert false;
    }
  }

  /** Python's `s.split(sep)` for a non-empty separator: the pieces between
      successive non-overlapping occurrences of `sep`, left to right. */
  function Split(s: string, sep: string): (parts: seq<string>)
    requires sep != []
    decreases |s|
    ensures |parts| >= 1
    ensures |parts| >= 2 <==> Contains(s, sep)
    ensures forall k :: 0 <= k < |parts| ==> !Contains(parts[k], sep)
  {
    match Find(s, sep)
    case None => [s]
    case Some(i) =>
      NoOccurrenceBefore(s, sep, i);
      [s[..i]] + Split(s[i + |sep|..], sep)
  }

  /** Python's `sep.join(parts)`. The first part starts the result, and with a
      non-empty separator the result is empty exactly when there is at most one
      part and it is empty. */
  function Join(parts: seq<string>, sep: string): (r: string)
    ensures |parts| >= 1 ==> parts[0] <= r
    ensures |parts| >= 2 ==> parts[0] + sep <= r
    ensures sep != [] ==> (r == "" <==> |parts| <= 1 && forall k :: 0 <= k < |parts| ==> parts[k] == "")
  {
    if |parts| == 0 then ""
    else if |parts| == 1 then parts[0]
    else parts[0] + sep + Join(parts[1..], sep)
  }

  /** The first `c` in `p + [c] + rest` is the one after `p` when `p` has none. */
  lemma FindAfter(p: string, c: char, rest: string)
    requires c !in p
    ensures Find(p + [c] + rest, [c]) == Some(|p|)
  {
    var s := p + [c] + rest;
    assert s[|p|..|p| + 1] == [c];
    assert OccursAt(s, [c], |p|);
    forall j | 0 <= j < |p|
      ensures !OccursAt(s, [c], j)
    {
      assert s[j..j + 1][0] == s[j] == p[j];
    }
  }

  /** Splitting a join of separator-free parts at the same one-character
      separator gives back the parts: the join is the parts in order with one
      separator between each two. */
  lemma {:induction false} SplitJoin(parts: seq<string>, c: char)
    requires parts != []
    requires forall k :: 0 <= k < |parts| ==> c !in parts[k]
    decreases |parts|
    ensures Split(Join(parts, [c]), [c]) == parts
  {
    var p := parts[0];
    if |parts| == 1 {
      ContainsChar(p, c);
      assert Join(parts, [c]) == p;
      assert Split(p, [c]) == [p];
    } else {
      var tail := parts[1..];
      var s, rest := Join(parts, [c]), Join(tail, [c]);
      assert s == p + [c] + rest;
      FindAfter(p, c, rest);
      assert s[..|p|] == p && s[|p| + 1..] == rest;
      assert Split(s, [c]) == [p] + Split(rest, [c]);
      assert forall k :: 0 <= k < |tail| ==> tail[k] == parts[k + 1];
      SplitJoin(tail, c);
      assert parts == [p] + tail;
    }
  }

  /** Joining the pieces of a split with the same separator gives back the string. */
  lemma {:induction false} JoinSplit(s: string, sep: string)
    requires sep != []
    decreases |s|
    ensures Join(Split(s, sep), sep) == s
  {
    match Find(s, sep)
    case None =>
    case Some(i) =>
      var rest := s[i + |sep|..];
      JoinSplit(rest, sep);
      assert Split(s, sep) == [s[..i]] + Split(rest, sep);
      assert s == s[..i] + s[i..i + |sep|] + rest;
  }

  /** The first piece of a split is the prefix before the first occurrence of
      the separator, or the whole string when there is none. */
  lemma SplitFirst(s: string, sep: string)
    requires sep != []
    ensures Find(s, sep).None? ==> Split(s, sep)[0] == s
    ensures Find(s, sep).Some? ==> Split(s, sep)[0] == s[..Find(s, sep).value]
  {
  }

  /** The second piece of a split: the text between the first occurrence of the
      separator and the next one, or the end of the string. */
  lemma SplitSecond(s: string, sep: string)
    requires sep != [] && Contains(s, sep)
    ensures var i := Find(s, sep).value;
      var rest := s[i + |sep|..];
      Split(s, sep)[1] == Split(rest, sep)[0]
  {
  }

  /** Python's `re.sub('\W+', ' ', s)`: every maximal run of characters that are
      not word characters becomes one space. A non-word character followed by
      another one is dropped; the last one of a run becomes the space. */
  function Collapse(isWord: char -> bool, s: string): (r: string)
    ensures |r| <= |s|
    ensures r == [] <==> s == []
    ensures s != [] && isWord(s[0]) ==> r[0] == s[0]
    ensures forall k :: 0 <= k < |r| && !isWord(r[k]) ==> r[k] == ' '
    ensures forall i, j :: 0 <= i < j < |r| && j == i + 1 ==> isWord(r[i]) || isWord(r[j])
  {
    if s == [] then []
    else if isWord(s[0]) then [s[0]] + Collapse(isWord, s[1..])
    else if |s| > 1 && !isWord(s[1]) then Collapse(isWord, s[1..])
    else [' '] + Collapse(isWord, s[1..])
  }

  /** Collapse works run by run: cutting the string anywhere except inside a
      run of non-word characters (so next to a word character, or at either
      end) splits the result at the same place. */
  lemma CollapseAppend(isWord: char -> bool, a: string, b: string)
    requires a == [] || b == [] || isWord(a[|a| - 1]) || isWord(b[0])
    ensures Collapse(isWord, a + b) == Collapse(isWord, a) + Collapse(isWord, b)
  {
    if a == [] {
      assert a + b == b;
    } else if b == [] {
      assert a + b == a;
    } else if isWord(a[|a| - 1]) {
      CollapseAfterWord(isWord, a, b);
    } else {
      CollapseBeforeWord(isWord, a, b);
    }
  }

  /** The cut right after a word character. */
  lemma {:induction false} CollapseAfterWord(isWord: char -> bool, a: string, b: string)
    requires a == [] || isWord(a[|a| - 1])
    ensures Collapse(isWord, a + b) == Collapse(isWord, a) + Collapse(isWord, b)
  {
    if a == [] {
      assert a + b == b;
    } else {
      var c, a' := a[0], a[1..];
      assert a == [c] + a' && a + b == [c] + (a' + b);
      assert a' == [] || isWord(a'[|a'| - 1]);
      CollapseAfterWord(isWord, a', b);
      CollapseConsRest(isWord, c, a', b);
    }
  }

  /** The cut right before a word character. */
  lemma {:induction false} CollapseBeforeWord(isWord: char -> bool, a: string, b: string)
    requires b != [] && isWord(b[0])
    ensures Collapse(isWord, a + b) == Collapse(isWord, a) + Collapse(isWord, b)
  {
    if a == [] {
      assert a + b == b;
    } else {
      var c, a' := a[0], a[1..];
      assert a == [c] + a' && a + b == [c] + (a' + b);
      CollapseBeforeWord(isWord, a', b);
      CollapseConsRest(isWord, c, a', b);
    }
  }

  /** One step of both cut lemmas: if the cut holds for `a'` and `b`, it holds
      for `[c] + a'` and `b`, unless `a'` is empty and a non-word `c` meets a
      non-word start of `b`. */
  lemma CollapseConsRest(isWord: char -> bool, c: char, a': string, b: string)
    requires Collapse(isWord, a' + b) == Collapse(isWord, a') + Collapse(isWord, b)
    requires a' == [] && !isWord(c) ==> b == [] || isWord(b[0])
    ensures Collapse(isWord, [c] + (a' + b)) == Collapse(isWord, [c] + a') + Collapse(isWord, b)
  {
    var s := a' + b;
    assert ([c] + a')[1..] == a';
    assert ([c] + s)[1..] == s;
    if a' == [] {
      assert s == b;
    } else {
      assert s[0] == a'[0];
    }
  }

  /** A string of word characters only is left unchanged. */
  lemma {:induction false} CollapseAllWord(isWord: char -> bool, s: string)
    requires forall k :: 0 <= k < |s| ==> isWord(s[k])
    ensures Collapse(isWord, s) == s
  {
    if s != [] {
      CollapseAllWord(isWord, s[1..]);
      assert s == [s[0]] + s[1..];
    }
  }

  /** A non-empty run of non-word characters becomes one space. */
  lemma {:induction false} CollapseAllNonWord(isWord: char -> bool, s: string)
    requires s != [] && forall k :: 0 <= k < |s| ==> !isWord(s[k])
    ensures Collapse(isWord, s) == " "
  {
    if |s| > 1 {
      CollapseAllNonWord(isWord, s[1..]);
    }
  }

  /** A string already in the shape Collapse produces: its only non-word
      character is the space, and no two non-word characters are adjacent. */
  ghost predicate IsCollapsed(isWord: char -> bool, s: string)
  {
    (forall k :: 0 <= k < |s| && !isWord(s[k]) ==> s[k] == ' ') &&
    (forall i, j :: 0 <= i < j < |s| && j == i + 1 ==> isWord(s[i]) || isWord(s[j]))
  }

  /** Collapse leaves a collapsed string unchanged. */
  lemma {:induction false} CollapseFixpoint(isWord: char -> bool, s: string)
    requires IsCollapsed(isWord, s)
    ensures Collapse(isWord, s) == s
  {
    if s != [] {
      assert IsCollapsed(isWord, s[1..]) by {
        forall i, j | 0 <= i < j < |s[1..]| && j == i + 1
          ensures isWord(s[1..][i]) || isWord(s[1..][j])
        {
          assert s[1..][i] == s[i + 1] && s[1..][j] == s[j + 1];
        }
      }
      CollapseFixpoint(isWord, s[1..]);
      assert s == [s[0]] + s[1..];
    }
  }

  /** Replacing `\W+` runs twice gives the same string as doing it once. */
  lemma {:induction false} CollapseIdempotent(isWord: char -> bool, s: string)
    ensures Collapse(isWord, Collapse(isWord, s)) == Collapse(isWord, s)
  {
    CollapseFixpoint(isWord, Collapse(isWord, s));
  }

  /** The word characters of `s`, in order. */
  function WordChars(isWord: char -> bool, s: string): string
  {
    if s == [] then [] else (if isWord(s[0]) then [s[0]] else []) + WordChars(isWord, s[1..])
  }

  lemma WordCharsCons(isWord: char -> bool, c: char, t: string)
    ensures WordChars(isWord, [c] + t) == (if isWord(c) then [c] else []) + WordChars(isWord, t)
  {
    assert ([c] + t)[1..] == t;
  }

  /** Collapse keeps every word character, in order, and only adds spaces,
      which are not word characters. */
  lemma {:induction false} CollapseKeepsWordChars(isWord: char -> bool, s: string)
    requires !isWord(' ')
    ensures WordChars(isWord, Collapse(isWord, s)) == WordChars(isWord, s)
  {
    if s != [] {
      CollapseKeepsWordChars(isWord, s[1..]);
      var t := Collapse(isWord, s[1..]);
      WordCharsCons(isWord, s[0], s[1..]);
      assert s == [s[0]] + s[1..];
      if isWord(s[0]) {
        WordCharsCons(isWord, s[0], t);
      } else if !(|s| > 1 && !isWord(s[1])) {
        WordCharsCons(isWord, ' ', t);
      }
    }
  }

  /** Python's `s.strip(c)` for one character: drop every leading and trailing `c`. */
  function TrimLeading(s: string, c: char): (r: string)
    ensures |r| <= |s| && r == s[|s| - |r|..]
    ensures forall k :: 0 <= k < |s| - |r| ==> s[k] == c
    ensures r == [] || r[0] != c
  {
    if s != [] && s[0] == c then TrimLeading(s[1..], c) else s
  }

  function TrimTrailing(s: string, c: char): (r: string)
    ensures |r| <= |s| && r == s[..|r|]
    ensures forall k :: |r| <= k < |s| ==> s[k] == c
    ensures r == [] || r[|r| - 1] != c
  {
    if s != [] && s[|s| - 1] == c then TrimTrailing(s[..|s| - 1], c) else s
  }

  /** `r` sits in `s` at offset `a`, and everything around it in `s` is `c`. */
  predicate PaddedBy(s: string, r: string, a: nat, c: char)
  {
    a + |r| <= |s| && r == s[a..a + |r|] &&
    (forall k :: 0 <= k < a ==> s[k] == c) &&
    (forall k :: a + |r| <= k < |s| ==> s[k] == c)
  }

  function Strip(s: string, c: char): (r: string)
    ensures exists a: nat :: PaddedBy(s, r, a, c)
    ensures r == [] || (r[0] != c && r[|r| - 1] != c)
  {
    StripPadded(s, c);
    TrimTrailing(TrimLeading(s, c), c)
  }

  /** The stripped text sits where the leading `c`s end. */
  lemma StripPadded(s: string, c: char)
    ensures PaddedBy(s, TrimTrailing(TrimLeading(s, c), c), |s| - |TrimLeading(s, c)|, c)
  {
    var t := TrimLeading(s, c);
    var r := TrimTrailing(t, c);
    var a := |s| - |t|;
    forall k | a + |r| <= k < |s| ensures s[k] == c {
      assert s[k] == t[k - a];
    }
    assert r == s[a..a + |r|];
  }
}

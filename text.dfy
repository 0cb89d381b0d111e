/** The string operations the core relies on: ASCII lower-casing for
    case-insensitive search, substring containment, prefix test, and the
    JavaScript `split` on a one-character separator. */
module Text {

  function LowerChar(c: char): char
  {
    if 'A' <= c <= 'Z' then (c as int + 32) as char else c
  }

  /** ASCII lower-casing, character by character. */
  function Lower(s: string): (r: string)
    ensures |r| == |s|
    ensures forall i :: 0 <= i < |s| ==> r[i] == LowerChar(s[i])
  {
    if s == [] then [] else [LowerChar(s[0])] + Lower(s[1..])
  }

  predicate StartsWith(s: string, prefix: string)
  {
    |prefix| <= |s| && s[..|prefix|] == prefix
  }

  /** `needle` occurs in `hay` at position `i`. */
  predicate OccursAt(hay: string, needle: string, i: int)
  {
    0 <= i && i + |needle| <= |hay| && hay[i..i + |needle|] == needle
  }

  lemma OccursAtPointwise(hay: string, needle: string, i: int)
    requires 0 <= i && i + |needle| <= |hay|
    requires forall k :: 0 <= k < |needle| ==> hay[i + k] == needle[k]
    ensures OccursAt(hay, needle, i)
  {
    assert hay[i..i + |needle|] == needle;
  }

  /** `needle` occurs somewhere in `hay`. */
  ghost predicate Occurs(hay: string, needle: string)
  {
    exists i :: OccursAt(hay, needle, i)
  }

  /** Substring test, scanning `hay` from the left. */
  predicate Contains(hay: string, needle: string)
    decreases |hay|
  {
    |needle| <= |hay| && (hay[..|needle|] == needle || Contains(hay[1..], needle))
  }

  lemma {:induction false} ContainsIff(hay: string, needle: string)
    ensures Contains(hay, needle) <==> Occurs(hay, needle)
    decreases |hay|
  {
    if |needle| <= |hay| {
      if hay[..|needle|] == needle {
        assert OccursAt(hay, needle, 0);
      } else {
        ContainsIff(hay[1..], needle);
        if Contains(hay[1..], needle) {
          var j :| OccursAt(hay[1..], needle, j);
          assert 0 <= j && j + |needle| <= |hay| - 1;
          assert hay[1..][j..j + |needle|] == hay[j + 1..j + 1 + |needle|];
          assert OccursAt(hay, needle, j + 1);
        }
        if i :| OccursAt(hay, needle, i) {
          assert i != 0;
          assert hay[1..][i - 1..i - 1 + |needle|] == hay[i..i + |needle|];
          assert OccursAt(hay[1..], needle, i - 1);
        }
      }
    }
  }

  /** Case-insensitive substring test (ASCII only). */
  predicate ContainsIgnoreCase(hay: string, needle: string)
  {
    Contains(Lower(hay), Lower(needle))
  }

  /** JavaScript's `s.split(sep)` for a one-character separator: the pieces
      between consecutive separators, the empty string included. */
  function Split(s: string, sep: char): (parts: seq<string>)
    ensures |parts| >= 1
    ensures forall k :: 0 <= k < |parts| ==> sep !in parts[k]
    decreases |s|
  {
    if s == [] then [""]
    else if s[0] == sep then [""] + Split(s[1..], sep)
    else
      var rest := Split(s[1..], sep);
      [[s[0]] + rest[0]] + rest[1..]
  }

  /** JavaScript's `parts.join(sep)`. */
  function Join(parts: seq<string>, sep: char): string
    requires |parts| >= 1
  {
    if |parts| == 1 then parts[0] else parts[0] + [sep] + Join(parts[1..], sep)
  }

  lemma {:induction false} JoinSplit(s: string, sep: char)
    ensures Join(Split(s, sep), sep) == s
    decreases |s|
  {
    if s != [] {
      JoinSplit(s[1..], sep);
      if s[0] != sep {
        var rest := Split(s[1..], sep);
        if |rest| > 1 {
          assert ([[s[0]] + rest[0]] + rest[1..])[1..] == rest[1..];
        }
      }
    }
  }

  lemma {:induction false} SplitJoin(parts: seq<string>, sep: char)
    requires |parts| >= 1
    requires forall k :: 0 <= k < |parts| ==> sep !in parts[k]
    ensures Split(Join(parts, sep), sep) == parts
    decreases |parts|, |parts[0]|
  {
    if parts[0] == [] {
      if |parts| > 1 {
        SplitJoin(parts[1..], sep);
        assert Join(parts, sep) == [sep] + Join(parts[1..], sep);
        assert Join(parts, sep)[1..] == Join(parts[1..], sep);
      }
    } else {
      var c := parts[0][0];
      var shorter := [parts[0][1..]] + parts[1..];
      assert forall k :: 0 <= k < |shorter| ==> sep !in shorter[k] by {
        forall k | 0 <= k < |shorter| ensures sep !in shorter[k] {
          if k == 0 { assert forall x :: x in parts[0][1..] ==> x in parts[0]; }
          else { assert shorter[k] == parts[k]; }
        }
      }
      SplitJoin(shorter, sep);
      assert shorter[1..] == parts[1..];
      assert Join(parts, sep) == [c] + Join(shorter, sep);
      assert c != sep by { assert c in parts[0]; }
      assert Join(parts, sep)[1..] == Join(shorter, sep);
      assert [c] + parts[0][1..] == parts[0];
    }
  }

  /** Splitting a separator-free word followed by the separator yields the
      word, then the split of the rest. */
  lemma {:induction false} SplitAfterWord(w: string, sep: char, r: string)
    requires sep !in w
    ensures Split(w + [sep] + r, sep) == [w] + Split(r, sep)
    decreases |w|
  {
    if w == [] {
      assert w + [sep] + r == [sep] + r;
      assert ([sep] + r)[1..] == r;
    } else {
      SplitAfterWord(w[1..], sep, r);
      assert (w + [sep] + r)[1..] == w[1..] + [sep] + r;
      assert [w[0]] + w[1..] == w;
    }
  }

  /** The first piece of a split is the text up to the first separator. */
  lemma SplitHead(s: string, sep: char)
    ensures StartsWith(s, Split(s, sep)[0])
    ensures sep !in Split(s, sep)[0]
    ensures |Split(s, sep)[0]| == |s| || s[|Split(s, sep)[0]|] == sep
  {
    var parts := Split(s, sep);
    JoinSplit(s, sep);
    if |parts| > 1 {
      assert s == parts[0] + [sep] + Join(parts[1..], sep);
      assert s[..|parts[0]|] == parts[0];
    }
  }

  /** "jones" is found in "Carol Jones" when case is ignored. */
  lemma CarolJonesContainsJones(fullName: string, search: string)
    requires fullName == "Carol Jones" && search == "jones"
    ensures ContainsIgnoreCase(fullName, search)
  {
    var name := Lower(fullName);
    var term := Lower(search);
    assert term == "jones" by {
      assert |term| == 5;
      assert term[0] == 'j' && term[1] == 'o' && term[2] == 'n' && term[3] == 'e' && term[4] == 's';
    }
    assert |name| == 11;
    assert name[6] == 'j' && name[7] == 'o' && name[8] == 'n' && name[9] == 'e' && name[10] == 's';
    OccursAtPointwise(name, term, 6);
    ContainsIff(name, term);
  }
}

/** The java.lang.String operations the gateway relies on: indexOf, contains, removal of a
    one-character literal (String.replace / replaceAll with a plain character), String.join and
    String.split on a one-character pattern that is not a regular-expression metacharacter. */
module JavaText {

  datatype Option<T> = None | Some(value: T)

  /** `t` occurs in `s` starting at index `i`. */
  ghost predicate OccursAt(s: string, t: string, i: int) {
    0 <= i && i + |t| <= |s| && s[i..i + |t|] == t
  }

  /** Every character of `p` is a character of `s`. */
  ghost predicate Within(p: string, s: string) {
    forall d :: d in p ==> d in s
  }

  lemma OccursAtShift(s: string, t: string, j: int)
    requires |s| > 0 && 0 <= j
    ensures OccursAt(s[1..], t, j) <==> OccursAt(s, t, j + 1)
  {
    if j + 1 + |t| <= |s| {
      assert s[1..][j..j + |t|] == s[j + 1..j + 1 + |t|];
    }
  }

  lemma OccursAtChar(s: string, c: char, j: int)
    ensures OccursAt(s, [c], j) <==> 0 <= j < |s| && s[j] == c
  {
    if 0 <= j < |s| {
      assert s[j..j + 1] == [s[j]];
    }
  }

  /** String.indexOf(String): the index at which `t` first occurs in `s`, or -1 (IndexOfFirst
      shows that no earlier occurrence exists, and none at all for -1). */
  function IndexOf(s: string, t: string): (i: int)
    ensures -1 <= i
    ensures i >= 0 ==> OccursAt(s, t, i)
    decreases |s|
  {
    if |t| > |s| then -1
    else if s[..|t|] == t then (assert s[0..|t|] == s[..|t|]; 0)
    else
      var k := IndexOf(s[1..], t);
      if k < 0 then -1
      else
        OccursAtShift(s, t, k);
        k + 1
  }

  /** indexOf finds the first occurrence: there is none before its result, and none at all
      when it returns -1. */
  lemma {:induction false} IndexOfFirst(s: string, t: string)
    ensures var i := IndexOf(s, t);
      forall j {:trigger OccursAt(s, t, j)} :: 0 <= j && (i == -1 || j < i) ==> !OccursAt(s, t, j)
    decreases |s|
  {
    var i := IndexOf(s, t);
    if |t| > |s| {
    } else if s[..|t|] == t {
    } else {
      assert !OccursAt(s, t, 0) by { assert s[0..|t|] == s[..|t|]; }
      IndexOfFirst(s[1..], t);
      forall j | 1 <= j && (i == -1 || j < i) ensures !OccursAt(s, t, j) {
        OccursAtShift(s, t, j - 1);
      }
    }
  }

  /** String.indexOf(char): the first index of `c` in `s`, or -1 exactly when `c` is absent. */
  lemma IndexOfChar(s: string, c: char)
    ensures var i := IndexOf(s, [c]);
      && (i == -1 <==> c !in s)
      && (i >= 0 ==> i < |s| && s[i] == c && c !in s[..i])
  {
    var i := IndexOf(s, [c]);
    IndexOfFirst(s, [c]);
    if i >= 0 {
      OccursAtChar(s, c, i);
      forall j | 0 <= j < i ensures s[j] != c {
        OccursAtChar(s, c, j);
      }
    } else {
      forall j | 0 <= j < |s| ensures s[j] != c {
        OccursAtChar(s, c, j);
      }
    }
  }

  /** String.contains: `t` is a substring of `s` (the empty string is a substring of every string). */
  function Contains(s: string, t: string): (r: bool)
    ensures r <==> exists i :: OccursAt(s, t, i)
  {
    IndexOfFirst(s, t);
    IndexOf(s, t) >= 0
  }

  /** Every occurrence of `c` removed from `s`, all other characters kept in order. */
  function Remove(s: string, c: char): (r: string)
    ensures c !in r
    ensures |r| <= |s|
  {
    if s == [] then []
    else (if s[0] == c then [] else [s[0]]) + Remove(s[1..], c)
  }

  /** Removal keeps every other character as often as it occurs. */
  lemma {:induction false} RemoveCounts(s: string, c: char)
    ensures multiset(Remove(s, c)) == multiset(s)[c := 0]
  {
    if s != [] {
      assert s == [s[0]] + s[1..];
      RemoveCounts(s[1..], c);
    }
  }

  lemma {:induction false} RemoveAbsent(s: string, c: char)
    requires c !in s
    ensures Remove(s, c) == s
  {
    if s != [] {
      RemoveAbsent(s[1..], c);
    }
  }

  /** Removing a character twice removes nothing more. */
  lemma RemoveIdempotent(s: string, c: char)
    ensures Remove(Remove(s, c), c) == Remove(s, c)
  {
    RemoveAbsent(Remove(s, c), c);
  }

  /** Removing one character never introduces another one. */
  lemma RemoveKeepsAbsence(s: string, c: char, d: char)
    requires d !in s
    ensures d !in Remove(s, c)
  {
    RemoveCounts(s, c);
    assert multiset(s)[d] == 0;
  }

  /** String.join(sep, parts). */
  function Join(parts: seq<string>, sep: string): string
  {
    if |parts| == 0 then ""
    else if |parts| == 1 then parts[0]
    else parts[0] + sep + Join(parts[1..], sep)
  }

  lemma {:induction false} JoinSnoc(parts: seq<string>, p: string, sep: string)
    requires |parts| > 0
    ensures Join(parts + [p], sep) == Join(parts, sep) + sep + p
  {
    if |parts| > 1 {
      assert (parts + [p])[1..] == parts[1..] + [p];
      JoinSnoc(parts[1..], p, sep);
    } else {
      assert (parts + [p])[1..] == [p];
    }
  }

  /** The pieces of `s` between the occurrences of `c`, empty ones included. */
  function Pieces(s: string, c: char): (ps: seq<string>)
    ensures |ps| >= 1
    decreases |s|
  {
    var i := IndexOf(s, [c]);
    if i < 0 then [s] else [s[..i]] + Pieces(s[i + 1..], c)
  }

  /** Joining the pieces with `c` gives `s` back. */
  lemma {:induction false} PiecesJoin(s: string, c: char)
    ensures Join(Pieces(s, c), [c]) == s
    decreases |s|
  {
    IndexOfChar(s, c);
    var i := IndexOf(s, [c]);
    if i >= 0 {
      var head, tail := s[..i], s[i + 1..];
      var rest := Pieces(tail, c);
      PiecesJoin(tail, c);
      assert ([head] + rest)[1..] == rest;
      assert s == head + [c] + tail;
    }
  }

  /** No piece contains `c`, and every piece's characters come from `s`. */
  lemma {:induction false} PiecesClean(s: string, c: char)
    ensures forall k :: 0 <= k < |Pieces(s, c)| ==> c !in Pieces(s, c)[k] && Within(Pieces(s, c)[k], s)
    decreases |s|
  {
    IndexOfChar(s, c);
    var i := IndexOf(s, [c]);
    var ps := Pieces(s, c);
    if i < 0 {
      assert Within(s, s);
    } else {
      var head, tail := s[..i], s[i + 1..];
      var rest := Pieces(tail, c);
      PiecesClean(tail, c);
      WithinSlices(s, 0, i);
      WithinSlices(s, i + 1, |s|);
      assert s[0..i] == head && s[i + 1..|s|] == tail;
      forall k | 0 <= k < |ps| ensures c !in ps[k] && Within(ps[k], s) {
        if k > 0 {
          assert ps[k] == rest[k - 1];
        }
      }
    }
  }

  lemma WithinSlices(s: string, i: nat, j: nat)
    requires i <= j <= |s|
    ensures Within(s[i..j], s)
  {
    forall d | d in s[i..j] ensures d in s {
      var k :| 0 <= k < j - i && s[i..j][k] == d;
      assert s[i + k] == d;
    }
  }

  /** `ps` with its trailing empty strings dropped. */
  function DropTrailingEmpty(ps: seq<string>): (r: seq<string>)
    ensures r <= ps
    ensures r == [] || r[|r| - 1] != ""
    ensures forall k :: |r| <= k < |ps| ==> ps[k] == ""
  {
    if ps != [] && ps[|ps| - 1] == "" then DropTrailingEmpty(ps[..|ps| - 1]) else ps
  }

  /** String.split(String.valueOf(c)) with the default limit: the pieces between the
      occurrences of `c`, trailing empty pieces removed; the whole string when `c` does not occur. */
  function Split(s: string, c: char): (r: seq<string>)
    ensures forall k :: 0 <= k < |r| ==> c !in r[k] && Within(r[k], s)
  {
    if c !in s then
      assert Within(s, s);
      [s]
    else
      PiecesClean(s, c);
      DropTrailingEmpty(Pieces(s, c))
  }

  /** `s` without its trailing run of `c`. */
  function TrimTrailing(s: string, c: char): (r: string)
    ensures r <= s
    ensures r == [] || r[|r| - 1] != c
    ensures forall k :: |r| <= k < |s| ==> s[k] == c
  {
    if |s| > 0 && s[|s| - 1] == c then TrimTrailing(s[..|s| - 1], c) else s
  }

  /** A join whose last part is not empty ends with that part's last character. */
  lemma JoinLastChar(ps: seq<string>, sep: string)
    requires |ps| >= 1 && ps[|ps| - 1] != ""
    ensures var j, last := Join(ps, sep), ps[|ps| - 1];
      |j| > 0 && j[|j| - 1] == last[|last| - 1]
  {
    var last := ps[|ps| - 1];
    if |ps| > 1 {
      var init := ps[..|ps| - 1];
      assert ps == init + [last];
      JoinSnoc(init, last, sep);
    }
  }

  lemma {:induction false} JoinDropTrailing(ps: seq<string>, c: char)
    requires forall k :: 0 <= k < |ps| ==> c !in ps[k]
    ensures Join(DropTrailingEmpty(ps), [c]) == TrimTrailing(Join(ps, [c]), c)
    decreases |ps|
  {
    if ps == [] {
    } else if ps[|ps| - 1] != "" {
      var last := ps[|ps| - 1];
      JoinLastChar(ps, [c]);
      assert last[|last| - 1] in last;
    } else if |ps| == 1 {
      assert DropTrailingEmpty(ps) == DropTrailingEmpty([]);
    } else {
      var init := ps[..|ps| - 1];
      assert ps == init + [""];
      JoinSnoc(init, "", [c]);
      var j := Join(init, [c]);
      assert Join(ps, [c]) == j + [c];
      assert (j + [c])[..|j + [c]| - 1] == j;
      JoinDropTrailing(init, c);
    }
  }

  /** Joining the pieces of a split with the separator gives back the input without its
      trailing separators: String.split loses exactly the trailing empty pieces. */
  lemma SplitJoin(s: string, c: char)
    ensures Join(Split(s, c), [c]) == TrimTrailing(s, c)
  {
    if c !in s {
      if |s| > 0 {
        assert s[|s| - 1] in s;
      }
    } else {
      PiecesJoin(s, c);
      PiecesClean(s, c);
      JoinDropTrailing(Pieces(s, c), c);
    }
  }
}

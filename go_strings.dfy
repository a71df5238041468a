/** A conventional optional value, standing in for Go's `(value, ok)` pairs and nil results. */
module Options {
  datatype Option<+T> = None | Some(value: T)
}

/**
  Specification functions for the parts of Go's `strings` package that the router
  calls, restricted to the one-character separators and cut sets it uses:
  `strings.Split`, `strings.SplitN(…, 2)`, `strings.HasPrefix`, `strings.HasSuffix`
  and `strings.Trim`. `strings.Contains(s, "/")` is written `'/' in s`.
  `Join` is not called by the router; it is the inverse that `Split` is proved against.
 */
module GoStrings {

  /** `strings.Split(s, string(sep))`: the pieces of `s` between occurrences of `sep`.
      An empty `s` gives one empty piece. */
  function Split(s: string, sep: char): (pieces: seq<string>)
    ensures |pieces| >= 1
    ensures forall k :: 0 <= k < |pieces| ==> sep !in pieces[k]
  {
    if |s| == 0 then [""]
    else
      var rest := Split(s[1..], sep);
      if s[0] == sep then [""] + rest
      else [[s[0]] + rest[0]] + rest[1..]
  }

  /** `strings.Join(pieces, string(sep))`. */
  function Join(pieces: seq<string>, sep: char): string
    requires |pieces| >= 1
  {
    if |pieces| == 1 then pieces[0] else pieces[0] + [sep] + Join(pieces[1..], sep)
  }

  /** Joining the pieces of a split gives back the original string. */
  lemma {:induction false} JoinSplit(s: string, sep: char)
    ensures Join(Split(s, sep), sep) == s
  {
    if |s| > 0 {
      var rest := Split(s[1..], sep);
      JoinSplit(s[1..], sep);
      if s[0] == sep {
        assert ([""] + rest)[1..] == rest;
        assert Join(Split(s, sep), sep) == [sep] + Join(rest, sep);
      } else if |rest| == 1 {
        assert Join(Split(s, sep), sep) == [s[0]] + rest[0];
      } else {
        var first := [s[0]] + rest[0];
        assert ([first] + rest[1..])[1..] == rest[1..];
        assert Join(Split(s, sep), sep) == first + [sep] + Join(rest[1..], sep);
        assert Join(rest, sep) == rest[0] + [sep] + Join(rest[1..], sep);
      }
    }
  }

  /** Splitting a string that starts with a separator-free run `a`: the run is glued
      to the first piece of the rest. */
  lemma {:induction false} SplitAfterRun(a: string, rest: string, sep: char)
    requires sep !in a
    ensures Split(a + rest, sep) == [a + Split(rest, sep)[0]] + Split(rest, sep)[1..]
  {
    if |a| > 0 {
      SplitAfterRun(a[1..], rest, sep);
      assert (a + rest)[1..] == a[1..] + rest;
      assert [a[0]] + (a[1..] + Split(rest, sep)[0]) == a + Split(rest, sep)[0];
    } else {
      var pieces := Split(rest, sep);
      assert a + rest == rest && a + pieces[0] == pieces[0];
      assert pieces == [pieces[0]] + pieces[1..];
    }
  }

  /** Splitting a join of separator-free pieces gives back the pieces. */
  lemma {:induction false} SplitJoin(pieces: seq<string>, sep: char)
    requires |pieces| >= 1
    requires forall k :: 0 <= k < |pieces| ==> sep !in pieces[k]
    ensures Split(Join(pieces, sep), sep) == pieces
  {
    if |pieces| == 1 {
      SplitAfterRun(pieces[0], "", sep);
      assert pieces[0] + "" == pieces[0];
    } else {
      var tail := Join(pieces[1..], sep);
      SplitJoin(pieces[1..], sep);
      assert ([sep] + tail)[1..] == tail;
      assert Split([sep] + tail, sep) == [""] + pieces[1..];
      assert pieces[0] + [sep] + tail == pieces[0] + ([sep] + tail);
      SplitAfterRun(pieces[0], [sep] + tail, sep);
      assert pieces[0] + "" == pieces[0];
      assert pieces == [pieces[0]] + pieces[1..];
    }
  }

  /** The non-empty strings of `strings`, in their order. */
  function NonEmpty(strings: seq<string>): (kept: seq<string>)
    ensures |kept| <= |strings|
    ensures forall k :: 0 <= k < |kept| ==> kept[k] != ""
  {
    if strings == [] then []
    else (if strings[0] != "" then [strings[0]] else []) + NonEmpty(strings[1..])
  }

  /** Concatenation is associative. */
  lemma AppendAssoc<T>(a: seq<T>, b: seq<T>, c: seq<T>)
    ensures (a + b) + c == a + (b + c)
  {
  }

  /** A non-empty slice is its first element followed by the rest of the slice. */
  lemma SliceCons<T>(s: seq<T>, i: nat, k: nat)
    requires i < k <= |s|
    ensures s[i..k] == [s[i]] + s[i + 1..k]
  {
  }

  /** `NonEmpty` on a sequence with a first element. */
  lemma NonEmptyCons(first: string, rest: seq<string>)
    ensures NonEmpty([first] + rest) == (if first != "" then [first] else []) + NonEmpty(rest)
  {
    assert ([first] + rest)[1..] == rest;
  }

  /** Filtering distributes over concatenation. */
  lemma {:induction false} NonEmptyAppend(a: seq<string>, b: seq<string>)
    ensures NonEmpty(a + b) == NonEmpty(a) + NonEmpty(b)
  {
    if a == [] {
      assert a + b == b;
    } else {
      assert (a + b)[1..] == a[1..] + b;
      NonEmptyAppend(a[1..], b);
    }
  }

  /** Filtering keeps no string that was not there: a character that no string holds is
      held by no kept string. */
  lemma {:induction false} NonEmptyAvoids(strings: seq<string>, c: char)
    requires forall k :: 0 <= k < |strings| ==> c !in strings[k]
    ensures forall k :: 0 <= k < |NonEmpty(strings)| ==> c !in NonEmpty(strings)[k]
  {
    if strings != [] {
      var tail := strings[1..];
      assert forall k :: 0 <= k < |tail| ==> tail[k] == strings[k + 1];
      NonEmptyAvoids(tail, c);
      var head := if strings[0] != "" then [strings[0]] else [];
      var kept := NonEmpty(strings);
      assert kept == head + NonEmpty(tail);
      forall k | 0 <= k < |kept| ensures c !in kept[k] {
        if k >= |head| { assert kept[k] == NonEmpty(tail)[k - |head|]; }
      }
    }
  }

  /** Filtering keeps a sequence of non-empty strings as it is. */
  lemma {:induction false} NonEmptyKeepsAll(strings: seq<string>)
    requires forall k :: 0 <= k < |strings| ==> strings[k] != ""
    ensures NonEmpty(strings) == strings
  {
    if strings != [] {
      NonEmptyKeepsAll(strings[1..]);
    }
  }

  /** A split has no non-empty piece exactly when the string is made of separators only. */
  lemma {:induction false} NoPiecesIffOnlySeparators(s: string, sep: char)
    ensures NonEmpty(Split(s, sep)) == [] <==> forall k :: 0 <= k < |s| ==> s[k] == sep
  {
    if |s| > 0 {
      var rest := Split(s[1..], sep);
      NoPiecesIffOnlySeparators(s[1..], sep);
      if s[0] == sep {
        assert ([""] + rest)[1..] == rest;
        assert NonEmpty(Split(s, sep)) == NonEmpty(rest);
        if forall k :: 0 <= k < |s[1..]| ==> s[1..][k] == sep {
          forall k | 0 <= k < |s| ensures s[k] == sep {
            if k > 0 { assert s[k] == s[1..][k - 1]; }
          }
        }
      } else {
        assert Split(s, sep)[0] != "";
      }
    }
  }

  /** `strings.SplitN(s, string(sep), 2)`: `s` cut at the first `sep`, if there is one. */
  function SplitOnce(s: string, sep: char): (parts: seq<string>)
    ensures sep !in s ==> parts == [s]
    ensures sep in s ==> |parts| == 2 && sep !in parts[0] && s == parts[0] + [sep] + parts[1]
  {
    if |s| == 0 then [s]
    else if s[0] == sep then ["", s[1..]]
    else
      var rest := SplitOnce(s[1..], sep);
      assert s == [s[0]] + s[1..];
      [[s[0]] + rest[0]] + rest[1..]
  }

  /** The first cut is unique: a separator-free prefix followed by `sep` is the first part. */
  lemma SplitOnceAt(a: string, b: string, sep: char)
    requires sep !in a
    ensures SplitOnce(a + [sep] + b, sep) == [a, b]
  {
    var s := a + [sep] + b;
    assert s[|a|] == sep;
    var parts := SplitOnce(s, sep);
    var p := parts[0];
    assert s[|p|] == sep;
    assert forall k :: 0 <= k < |a| ==> s[k] == a[k];
    assert forall k :: 0 <= k < |p| ==> s[k] == p[k];
    assert |p| == |a|;
    assert p == s[..|a|] == a;
    assert parts[1] == s[|a| + 1..] == b;
  }

  /** `strings.HasPrefix(s, prefix)`. */
  predicate HasPrefix(s: string, prefix: string)
  {
    |prefix| <= |s| && s[..|prefix|] == prefix
  }

  /** `strings.HasSuffix(s, suffix)`. */
  predicate HasSuffix(s: string, suffix: string)
  {
    |suffix| <= |s| && s[|s| - |suffix|..] == suffix
  }

  /** Go's `TrimLeft`: drops every leading character that is in `cut`. */
  function TrimLeft(s: string, cut: set<char>): (r: string)
    ensures |r| <= |s|
  {
    if |s| > 0 && s[0] in cut then TrimLeft(s[1..], cut) else s
  }

  /** `TrimLeft` leaves a suffix, drops only characters in `cut`, and stops at the first
      character not in `cut`. */
  lemma {:induction false} TrimLeftSuffix(s: string, cut: set<char>)
    ensures var r := TrimLeft(s, cut);
      && r == s[|s| - |r|..]
      && (forall k :: 0 <= k < |s| - |r| ==> s[k] in cut)
      && (r == [] || r[0] !in cut)
  {
    if |s| > 0 && s[0] in cut {
      TrimLeftSuffix(s[1..], cut);
      var r := TrimLeft(s, cut);
      forall k | 0 < k < |s| - |r| ensures s[k] in cut {
        assert s[k] == s[1..][k - 1];
      }
    }
  }

  /** Go's `TrimRight`: drops every trailing character that is in `cut`. */
  function TrimRight(s: string, cut: set<char>): (r: string)
    ensures |r| <= |s|
  {
    if |s| > 0 && s[|s| - 1] in cut then TrimRight(s[..|s| - 1], cut) else s
  }

  /** `TrimRight` leaves a prefix, drops only characters in `cut`, and stops at the last
      character not in `cut`. */
  lemma {:induction false} TrimRightPrefix(s: string, cut: set<char>)
    ensures var r := TrimRight(s, cut);
      && r == s[..|r|]
      && (forall k :: |r| <= k < |s| ==> s[k] in cut)
      && (r == [] || r[|r| - 1] !in cut)
  {
    if |s| > 0 && s[|s| - 1] in cut {
      var init := s[..|s| - 1];
      TrimRightPrefix(init, cut);
      var r := TrimRight(s, cut);
      assert init[..|r|] == s[..|r|];
      forall k | |r| <= k < |s| - 1 ensures s[k] in cut {
        assert s[k] == init[k];
      }
    }
  }

  /** `strings.Trim(s, cutset)`: `TrimLeft`, then `TrimRight`. */
  function Trim(s: string, cut: set<char>): (r: string)
    ensures |r| <= |s|
  {
    TrimRight(TrimLeft(s, cut), cut)
  }

  /** What `Trim` leaves is the infix of `s` between a run of leading and a run of
      trailing characters in `cut`, and it neither starts nor ends with one of them. */
  lemma TrimInfix(s: string, cut: set<char>)
    ensures var r := Trim(s, cut);
      var lo := |s| - |TrimLeft(s, cut)|;
      && lo + |r| <= |s|
      && r == s[lo..lo + |r|]
      && (forall k :: 0 <= k < lo ==> s[k] in cut)
      && (forall k :: lo + |r| <= k < |s| ==> s[k] in cut)
      && (r == [] || (r[0] !in cut && r[|r| - 1] !in cut))
  {
    var left := TrimLeft(s, cut);
    var r := TrimRight(left, cut);
    var lo := |s| - |left|;
    TrimLeftSuffix(s, cut);
    TrimRightPrefix(left, cut);
    assert s[lo..lo + |r|] == left[..|r|] by {
      assert left == s[lo..];
    }
    forall k | lo + |r| <= k < |s| ensures s[k] in cut {
      assert s[k] == left[k - lo];
    }
  }
}

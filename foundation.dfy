/**
  Stand-ins for the few Swift and Foundation helpers the iOS controller leans on,
  each given a simple stated definition: an optional value, bytes, ASCII
  lower-casing, suffix and substring tests, a file name's path extension, and
  Swift's `split(separator:)`.
*/
module Foundation {

  datatype Option<+T> = None | Some(value: T)

  newtype byte = x: int | 0 <= x < 256

  /** ASCII lower-casing of one character; every other character is kept. */
  function LowerChar(c: char): char
  {
    if 'A' <= c <= 'Z' then (c as int + 32) as char else c
  }

  /** `lowercased()`, restricted to ASCII letters. */
  function Lower(s: string): (r: string)
    ensures |r| == |s|
    ensures forall i :: 0 <= i < |s| ==> r[i] == LowerChar(s[i])
    ensures forall i :: 0 <= i < |r| ==> !('A' <= r[i] <= 'Z')
  {
    seq(|s|, i requires 0 <= i < |s| => LowerChar(s[i]))
  }

  lemma LowerAppend(a: string, b: string)
    ensures Lower(a + b) == Lower(a) + Lower(b)
  {
    assert forall i :: 0 <= i < |a + b| ==> Lower(a + b)[i] == (Lower(a) + Lower(b))[i];
  }

  /** `hasSuffix`: t is the tail of s. */
  predicate HasSuffix(s: string, t: string)
  {
    |t| <= |s| && s[|s| - |t|..] == t
  }

  /** `contains` on strings: t occurs in s at some position. */
  predicate Contains(s: string, t: string)
    decreases |s|
  {
    (|t| <= |s| && s[..|t|] == t) || (s != [] && Contains(s[1..], t))
  }

  lemma {:induction false} ContainsAt(s: string, t: string, i: nat)
    requires i + |t| <= |s| && s[i..i + |t|] == t
    ensures Contains(s, t)
    decreases i
  {
    if i > 0 {
      assert s[1..][i - 1..i - 1 + |t|] == s[i..i + |t|];
      ContainsAt(s[1..], t, i - 1);
    } else {
      assert s[..|t|] == s[i..i + |t|];
    }
  }

  /**
    The text after the last '.' of the final '/'-separated segment of s, or None
    when that segment holds no '.'.
  */
  function DotSuffix(s: string): (r: Option<string>)
    ensures r.Some? ==> forall i :: 0 <= i < |r.value| ==> r.value[i] != '.' && r.value[i] != '/'
    ensures r.Some? ==> HasSuffix(s, "." + r.value)
    decreases |s|
  {
    if s == [] then None
    else
      var c := s[|s| - 1];
      if c == '.' then Some("")
      else if c == '/' then None
      else match DotSuffix(s[..|s| - 1])
        case None => None
        case Some(t) => Some(t + [c])
  }

  /**
    `pathExtension`, simplified: the text after the last '.' of the last path
    segment, or the empty string when there is no such '.'.
  */
  function PathExtension(s: string): (e: string)
    ensures forall i :: 0 <= i < |e| ==> e[i] != '.' && e[i] != '/'
    ensures e != "" ==> HasSuffix(s, "." + e)
  {
    match DotSuffix(s)
    case None => ""
    case Some(t) => t
  }

  /** Whatever follows the final '.' of a name is its extension. */
  lemma {:induction false} PathExtensionAfterDot(stem: string, e: string)
    requires forall i :: 0 <= i < |e| ==> e[i] != '.' && e[i] != '/'
    ensures PathExtension(stem + "." + e) == e
    decreases |e|
  {
    if e == [] {
      assert stem + "." + e == stem + ".";
    } else {
      var e' := e[..|e| - 1];
      assert (stem + "." + e)[..|stem + "." + e| - 1] == stem + "." + e';
      PathExtensionAfterDot(stem, e');
      assert DotSuffix(stem + "." + e') == Some(e');
      assert e' + [e[|e| - 1]] == e;
    }
  }

  /** A name without any '.' has no extension. */
  lemma {:induction false} NoDotNoExtension(s: string)
    requires forall i :: 0 <= i < |s| ==> s[i] != '.'
    ensures DotSuffix(s) == None
    ensures PathExtension(s) == ""
    decreases |s|
  {
    if s != [] {
      NoDotNoExtension(s[..|s| - 1]);
    }
  }

  /** Length of the leading run of characters other than sep. */
  function RunLength(s: string, sep: char): (k: nat)
    ensures k <= |s|
    ensures forall i :: 0 <= i < k ==> s[i] != sep
    ensures k == |s| || s[k] == sep
    decreases |s|
  {
    if s == [] || s[0] == sep then 0 else 1 + RunLength(s[1..], sep)
  }

  /**
    Swift's `split(separator:)` with its default of omitting empty pieces: the
    maximal runs of characters other than sep, in order.
  */
  function Split(s: string, sep: char): seq<string>
    decreases |s|
  {
    if s == [] then []
    else if s[0] == sep then Split(s[1..], sep)
    else
      var k := RunLength(s, sep);
      [s[..k]] + Split(s[k..], sep)
  }

  /** Every piece is non-empty and free of the separator. */
  lemma {:induction false} SplitPieces(s: string, sep: char)
    ensures forall j :: 0 <= j < |Split(s, sep)| ==>
      Split(s, sep)[j] != [] && forall i :: 0 <= i < |Split(s, sep)[j]| ==> Split(s, sep)[j][i] != sep
    decreases |s|
  {
    if s != [] {
      if s[0] == sep {
        SplitPieces(s[1..], sep);
      } else {
        var k := RunLength(s, sep);
        SplitPieces(s[k..], sep);
      }
    }
  }

  /** Splitting yields no piece exactly when s consists of separators only. */
  lemma {:induction false} SplitEmptyIff(s: string, sep: char)
    ensures Split(s, sep) == [] <==> forall i :: 0 <= i < |s| ==> s[i] == sep
    decreases |s|
  {
    if s != [] {
      if s[0] == sep {
        SplitEmptyIff(s[1..], sep);
        assert forall i :: 1 <= i < |s| ==> s[i] == s[1..][i - 1];
      }
    }
  }

  lemma {:induction false} RunLengthStopsAtSeparator(a: string, sep: char, b: string)
    ensures RunLength(a + [sep] + b, sep) == RunLength(a, sep)
    decreases |a|
  {
    if a == [] {
    } else if a[0] != sep {
      assert (a + [sep] + b)[1..] == a[1..] + [sep] + b;
      RunLengthStopsAtSeparator(a[1..], sep, b);
    }
  }

  /** A separator cuts the split exactly in two. */
  lemma {:induction false} SplitAround(a: string, sep: char, b: string)
    ensures Split(a + [sep] + b, sep) == Split(a, sep) + Split(b, sep)
    decreases |a|
  {
    var s := a + [sep] + b;
    if a == [] {
      assert s[1..] == b;
    } else if a[0] == sep {
      assert s[1..] == a[1..] + [sep] + b;
      SplitAround(a[1..], sep, b);
    } else {
      RunLengthStopsAtSeparator(a, sep, b);
      var k := RunLength(a, sep);
      assert s[..k] == a[..k];
      assert s[k..] == a[k..] + [sep] + b;
      SplitAround(a[k..], sep, b);
    }
  }

  lemma SplitWhole(b: string, sep: char)
    requires b != []
    requires forall i :: 0 <= i < |b| ==> b[i] != sep
    ensures Split(b, sep) == [b]
  {
    assert RunLength(b, sep) == |b|;
    assert b[|b|..] == [];
    assert b[..|b|] == b;
  }

  /** The last piece of a split is the text after the last separator. */
  lemma LastPieceAfterSeparator(stem: string, sep: char, e: string)
    requires e != []
    requires forall i :: 0 <= i < |e| ==> e[i] != sep
    ensures Split(stem + [sep] + e, sep) == Split(stem, sep) + [e]
  {
    SplitAround(stem, sep, e);
    SplitWhole(e, sep);
  }
}

/**
 * The java.lang.String operations the manager relies on: joining with a separator, splitting
 * at a separator, trim(), and the lexicographic order of compareTo.
 */
module Strings {

  lemma AppendAssoc<T>(a: seq<T>, b: seq<T>, c: seq<T>)
    ensures a + b + c == a + (b + c)
  {
  }

  /** The parts with one separator between each two neighbours (String.join). */
  function JoinWith(parts: seq<string>, sep: char): string {
    if |parts| == 0 then ""
    else if |parts| == 1 then parts[0]
    else parts[0] + [sep] + JoinWith(parts[1..], sep)
  }

  /** The parts, each followed by the separator: the text a loop builds by appending part and separator. */
  function Terminated(parts: seq<string>, sep: char): (s: string)
    ensures parts != [] ==> |s| > 0 && s[|s| - 1] == sep
  {
    if parts == [] then "" else Terminated(parts[..|parts| - 1], sep) + parts[|parts| - 1] + [sep]
  }

  lemma {:induction false} JoinWithAppend(parts: seq<string>, p: string, sep: char)
    requires parts != []
    ensures JoinWith(parts + [p], sep) == JoinWith(parts, sep) + [sep] + p
  {
    if |parts| > 1 {
      assert (parts + [p])[1..] == parts[1..] + [p];
      JoinWithAppend(parts[1..], p, sep);
    }
  }

  /** The joined text begins with the first part. */
  lemma JoinWithFirst(parts: seq<string>, sep: char)
    requires parts != []
    ensures |parts[0]| <= |JoinWith(parts, sep)| && JoinWith(parts, sep)[..|parts[0]|] == parts[0]
  {
  }

  /** The joined text ends with the last part. */
  lemma {:induction false} JoinWithLast(parts: seq<string>, sep: char)
    requires parts != []
    ensures var s, last := JoinWith(parts, sep), parts[|parts| - 1];
      |last| <= |s| && s[|s| - |last|..] == last
  {
    if |parts| > 1 {
      JoinWithLast(parts[1..], sep);
    }
  }

  /** Building with a separator after every part gives the joined text plus one trailing separator. */
  lemma {:induction false} TerminatedIsJoinWith(parts: seq<string>, sep: char)
    requires parts != []
    ensures Terminated(parts, sep) == JoinWith(parts, sep) + [sep]
  {
    var init, last := parts[..|parts| - 1], parts[|parts| - 1];
    if init != [] {
      calc {
        Terminated(parts, sep);
        Terminated(init, sep) + last + [sep];
      == { TerminatedIsJoinWith(init, sep); }
        JoinWith(init, sep) + [sep] + last + [sep];
      == { JoinWithAppend(init, last, sep); assert parts == init + [last]; }
        JoinWith(parts, sep) + [sep];
      }
    }
  }

  /**
   * Text not ending in sep, then parts each followed by sep: when the result ends in sep, taking
   * that one character off leaves the text followed by the joined parts; otherwise there were no
   * parts.
   */
  lemma StripTerminated(before: string, parts: seq<string>, sep: char, r: string)
    requires before != [] && before[|before| - 1] != sep
    requires r == before + Terminated(parts, sep)
    ensures r != []
    ensures r[|r| - 1] == sep ==> r[..|r| - 1] == before + JoinWith(parts, sep)
    ensures r[|r| - 1] != sep ==> r == before + JoinWith(parts, sep)
  {
    if parts != [] {
      TerminatedIsJoinWith(parts, sep);
      assert r == before + JoinWith(parts, sep) + [sep];
    } else {
      assert r == before;
    }
  }

  lemma {:induction false} TerminatedConcat(a: seq<string>, b: seq<string>, sep: char)
    ensures Terminated(a + b, sep) == Terminated(a, sep) + Terminated(b, sep)
    decreases |b|
  {
    if b == [] {
      assert a + b == a;
    } else {
      var init, last := b[..|b| - 1], b[|b| - 1];
      var ab := a + b;
      assert ab[..|ab| - 1] == a + init;
      assert ab[|ab| - 1] == last;
      TerminatedConcat(a, init, sep);
      calc {
        Terminated(ab, sep);
        Terminated(a + init, sep) + last + [sep];
        Terminated(a, sep) + Terminated(init, sep) + last + [sep];
        Terminated(a, sep) + (Terminated(init, sep) + last + [sep]);
        Terminated(a, sep) + Terminated(b, sep);
      }
    }
  }

  /** A character that is in no part and is not the separator is not in the joined text. */
  lemma {:induction false} JoinWithAvoids(parts: seq<string>, sep: char, c: char)
    requires c != sep
    requires forall k :: 0 <= k < |parts| ==> c !in parts[k]
    ensures c !in JoinWith(parts, sep)
  {
    if |parts| > 1 {
      JoinWithAvoids(parts[1..], sep, c);
    }
  }

  /** The position of the first occurrence of c in s. */
  function IndexOf(s: string, c: char): (i: nat)
    requires c in s
    ensures i < |s| && s[i] == c && c !in s[..i]
  {
    if s[0] == c then 0
    else
      var j := IndexOf(s[1..], c);
      assert s[..1 + j] == [s[0]] + s[1..][..j];
      1 + j
  }

  /** The pieces of s between occurrences of sep, empty pieces included (so never an empty list). */
  function Split(s: string, sep: char): (parts: seq<string>)
    ensures |parts| >= 1
    ensures forall k :: 0 <= k < |parts| ==> sep !in parts[k]
    ensures JoinWith(parts, sep) == s
    decreases |s|
  {
    if sep in s then
      var i := IndexOf(s, sep);
      var rest := Split(s[i + 1..], sep);
      assert s == s[..i] + [sep] + s[i + 1..];
      [s[..i]] + rest
    else [s]
  }

  lemma SplitAt(p: string, r: string, sep: char)
    requires sep !in p
    ensures Split(p + [sep] + r, sep) == [p] + Split(r, sep)
  {
    var s := p + [sep] + r;
    assert s[|p|] == sep;
    var i := IndexOf(s, sep);
    assert s[..|p|] == p;
    assert i == |p|;
    assert s[..i] == p;
    assert s[i + 1..] == r;
  }

  /** Splitting the joined text at the separator gives back the parts, when no part contains it. */
  lemma {:induction false} SplitJoinWith(parts: seq<string>, sep: char)
    requires parts != []
    requires forall k :: 0 <= k < |parts| ==> sep !in parts[k]
    ensures Split(JoinWith(parts, sep), sep) == parts
  {
    if |parts| > 1 {
      SplitJoinWith(parts[1..], sep);
      SplitAt(parts[0], JoinWith(parts[1..], sep), sep);
    }
  }

  /** The characters String.trim() removes: every code point up to and including the space. */
  predicate IsSpace(c: char) {
    c <= ' '
  }

  function TrimStart(s: string): (t: string)
    ensures |t| <= |s| && t == s[|s| - |t|..]
    ensures t == [] || !IsSpace(t[0])
    ensures forall k :: 0 <= k < |s| - |t| ==> IsSpace(s[k])
  {
    if s != [] && IsSpace(s[0]) then TrimStart(s[1..]) else s
  }

  function TrimEnd(s: string): (t: string)
    ensures |t| <= |s| && t == s[..|t|]
    ensures t == [] || !IsSpace(t[|t| - 1])
    ensures forall k :: |t| <= k < |s| ==> IsSpace(s[k])
  {
    if s != [] && IsSpace(s[|s| - 1]) then TrimEnd(s[..|s| - 1]) else s
  }

  /** String.trim(): s without its leading and trailing characters up to the space. */
  function Trim(s: string): (t: string)
    ensures t == [] || (!IsSpace(t[0]) && !IsSpace(t[|t| - 1]))
  {
    TrimEnd(TrimStart(s))
  }

  /** Trimming text that ends in one space-like character removes exactly that character. */
  lemma TrimPadded(j: string, pad: char)
    requires j != [] && !IsSpace(j[0]) && !IsSpace(j[|j| - 1])
    requires IsSpace(pad)
    ensures Trim(j + [pad]) == j
  {
    assert TrimStart(j + [pad]) == j + [pad];
    assert (j + [pad])[..|j|] == j;
  }

  /** s comes strictly before t in the order of String.compareTo (by code unit, then by length). */
  predicate StringLess(s: string, t: string) {
    if s == [] then t != []
    else if t == [] then false
    else if s[0] != t[0] then s[0] < t[0]
    else StringLess(s[1..], t[1..])
  }

  lemma {:induction false} StringLessIrreflexive(s: string)
    ensures !StringLess(s, s)
  {
    if s != [] {
      StringLessIrreflexive(s[1..]);
    }
  }

  lemma {:induction false} StringLessAsymmetric(s: string, t: string)
    requires StringLess(s, t)
    ensures !StringLess(t, s)
  {
    if s != [] && t != [] && s[0] == t[0] {
      StringLessAsymmetric(s[1..], t[1..]);
    }
  }

  lemma {:induction false} StringLessTransitive(s: string, t: string, u: string)
    requires StringLess(s, t) && StringLess(t, u)
    ensures StringLess(s, u)
  {
    if s != [] && s[0] == t[0] && t[0] == u[0] {
      StringLessTransitive(s[1..], t[1..], u[1..]);
    }
  }

  lemma {:induction false} StringLessTotal(s: string, t: string)
    ensures s == t || StringLess(s, t) || StringLess(t, s)
  {
    if s != [] && t != [] && s[0] == t[0] {
      StringLessTotal(s[1..], t[1..]);
      if s[1..] == t[1..] {
        assert s == [s[0]] + s[1..] && t == [t[0]] + t[1..];
      }
    }
  }
}

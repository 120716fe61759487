/**
 * String operations the class-tree builder performs on binary and canonical
 * names: the `/`-to-`.` rewriting of a class name, the StringBuilder joins
 * that rebuild nested names, `String.lastIndexOf`, the case-insensitive
 * suffix test on archive names, and the visitor's `containsAt` check.
 */
module Names {

  /** The class name of an object type: the internal name with every `/` turned into `.`. */
  function Dotted(n: string): (r: string)
    ensures |r| == |n|
    ensures forall i :: 0 <= i < |n| ==> r[i] == (if n[i] == '/' then '.' else n[i])
  {
    if n == [] then []
    else Dotted(n[..|n| - 1]) + [if n[|n| - 1] == '/' then '.' else n[|n| - 1]]
  }

  /** The parts written one after the other with `sep` between two neighbours. */
  function Join(parts: seq<string>, sep: char): string
  {
    if |parts| == 0 then ""
    else if |parts| == 1 then parts[0]
    else Join(parts[..|parts| - 1], sep) + [sep] + parts[|parts| - 1]
  }

  /** The parts written one after the other, each followed by `sep`: what a
      StringBuilder holds after a loop that appends a part and then `sep`. */
  function Terminated(parts: seq<string>, sep: char): string
  {
    if |parts| == 0 then ""
    else Terminated(parts[..|parts| - 1], sep) + parts[|parts| - 1] + [sep]
  }

  /** Appending one more part to a builder that holds `Terminated(parts)`
      spells the joined name of the longer list. */
  lemma {:induction false} TerminatedThen(parts: seq<string>, x: string, sep: char)
    ensures Terminated(parts, sep) + x == Join(parts + [x], sep)
  {
    if |parts| == 0 {
      assert parts + [x] == [x];
    } else {
      var init := parts[..|parts| - 1];
      TerminatedThen(init, parts[|parts| - 1], sep);
      assert init + [parts[|parts| - 1]] == parts;
      assert (parts + [x])[..|parts|] == parts;
    }
  }

  /** One round of a builder loop over `parts`: appending part `i` spells the
      join of the first `i + 1` parts, and appending `sep` after it gives the
      builder the loop carries into the next round. */
  lemma TerminatedStep(parts: seq<string>, i: nat, sep: char)
    requires i < |parts|
    ensures Terminated(parts[..i], sep) + parts[i] == Join(parts[..i + 1], sep)
    ensures Terminated(parts[..i], sep) + parts[i] + [sep] == Terminated(parts[..i + 1], sep)
  {
    TerminatedThen(parts[..i], parts[i], sep);
    assert parts[..i] + [parts[i]] == parts[..i + 1];
    assert parts[..i + 1][..i] == parts[..i];
  }

  /** Dropping the final separator of `Terminated(parts)` leaves the joined name. */
  lemma TerminatedDropLast(parts: seq<string>, sep: char)
    requires |parts| >= 1
    ensures |Terminated(parts, sep)| >= 1
    ensures Terminated(parts, sep)[..|Terminated(parts, sep)| - 1] == Join(parts, sep)
  {
    var init := parts[..|parts| - 1];
    TerminatedThen(init, parts[|parts| - 1], sep);
    assert init + [parts[|parts| - 1]] == parts;
    var t := Terminated(parts, sep);
    assert t == Join(parts, sep) + [sep];
  }

  /** A prefix of a list grows by the next element. */
  lemma TakeOneMore(parts: seq<string>, i: nat)
    requires i < |parts|
    ensures parts[..i] + [parts[i]] == parts[..i + 1]
  {
  }

  /** The join of the first `j` parts begins the join of all of them, and
      when parts remain the separator follows it. */
  lemma {:induction false} JoinPrefix(parts: seq<string>, j: nat, sep: char)
    requires 1 <= j <= |parts|
    ensures Join(parts[..j], sep) <= Join(parts, sep)
    ensures j < |parts| ==> |Join(parts[..j], sep)| < |Join(parts, sep)| &&
                            Join(parts, sep)[|Join(parts[..j], sep)|] == sep
  {
    if j < |parts| {
      var init := parts[..|parts| - 1];
      assert init[..j] == parts[..j];
      if j < |init| {
        JoinPrefix(init, j, sep);
      } else {
        assert parts[..j] == init;
      }
    } else {
      assert parts[..j] == parts;
    }
  }

  /** The last step of a join of at least two parts. */
  lemma JoinLast(parts: seq<string>, sep: char)
    requires |parts| >= 2
    ensures Join(parts, sep) == Join(parts[..|parts| - 1], sep) + [sep] + parts[|parts| - 1]
  {
  }

  /** Part `i + 1` passes `containsAt` in the join with `$` of all the parts,
      right after the first `i + 1` of them, which are shorter than the join. */
  lemma JoinNextPart(parts: seq<string>, i: nat)
    requires i + 1 < |parts|
    ensures |Join(parts[..i + 1], '$')| < |Join(parts, '$')|
    ensures MatchesAt(Join(parts, '$'), parts[i + 1], |Join(parts[..i + 1], '$')| + 1)
  {
    var b := Join(parts[..i + 1], '$');
    var m := Join(parts, '$');
    var x := parts[i + 1];
    var q := parts[..i + 2];
    assert q[..i + 1] == parts[..i + 1] && q[i + 1] == x;
    JoinLast(q, '$');
    var c := Join(q, '$');
    JoinPrefix(parts, i + 2, '$');
    if i + 2 == |parts| {
      assert q == parts;
    } else {
      assert m[|c|] == '$';
    }
    PrefixMatches(m, b, x);
  }

  /** A string that begins with `b`, a `$` and `x`, followed by a `$` or
      the end, passes `containsAt` for `x` right after the `$`. */
  lemma PrefixMatches(m: string, b: string, x: string)
    requires b + ['$'] + x <= m
    requires |b| + 1 + |x| == |m| || m[|b| + 1 + |x|] == '$'
    ensures |b| < |m| && MatchesAt(m, x, |b| + 1)
  {
    var c := b + ['$'] + x;
    assert Overlap(m, x, |b| + 1) == |x|;
    forall k | 0 <= k < |x| ensures m[|b| + 1 + k] == x[k] {
      assert m[|b| + 1 + k] == c[|b| + 1 + k];
    }
  }

  /** `String.lastIndexOf(c)`: the position of the last `c` in `s`, or -1. */
  function LastIndexOf(s: string, c: char): (r: int)
    ensures -1 <= r < |s|
    ensures r >= 0 ==> s[r] == c
    ensures forall j :: r < j < |s| ==> s[j] != c
  {
    if |s| == 0 then -1
    else if s[|s| - 1] == c then |s| - 1
    else LastIndexOf(s[..|s| - 1], c)
  }

  /** ASCII part of `Character.toLowerCase`. */
  function LowerAscii(c: char): char
  {
    if 'A' <= c <= 'Z' then (c as int + 32) as char else c
  }

  /** `s.toLowerCase().endsWith(suffix)` for a lower-case `suffix`. */
  predicate EndsWithIgnoreCase(s: string, suffix: string)
  {
    |suffix| <= |s| &&
    forall k :: 0 <= k < |suffix| ==> LowerAscii(s[|s| - |suffix| + k]) == suffix[k]
  }

  /** The suffix test ignores the case of the name: `LIB.JAR` is a jar. */
  lemma UpperCaseSuffixAccepted()
    ensures EndsWithIgnoreCase("LIB.JAR", ".jar")
    ensures EndsWithIgnoreCase("A.Class", ".class")
  {
    assert LowerAscii('J') == 'j' && LowerAscii('A') == 'a' && LowerAscii('R') == 'r';
    assert LowerAscii('C') == 'c';
  }

  /** No name is both a `.jar` and a `.class`, so the order of the two
      suffix tests does not matter. */
  lemma ArchiveKindsExclusive(name: string)
    ensures EndsWithIgnoreCase(name, ".jar") ==> !EndsWithIgnoreCase(name, ".class")
  {
    if EndsWithIgnoreCase(name, ".jar") {
      assert LowerAscii(name[|name| - |".jar"| + 3]) == ".jar"[3];
      assert ".jar"[3] == 'r' && ".class"[5] == 's';
      if |name| >= 6 {
        assert name[|name| - |".class"| + 5] == name[|name| - |".jar"| + 3];
        assert LowerAscii(name[|name| - |".class"| + 5]) != ".class"[5];
      }
    }
  }


  /** How many characters `containsAt` compares: it stops at the end of
      either string. */
  function Overlap(s: string, sub: string, start: nat): nat
    requires start <= |s|
  {
    if |sub| < |s| - start then |sub| else |s| - start
  }

  /** The meaning of `containsAt(s, sub, start)`: the compared characters
      agree, and the comparison stops at the end of `s` or just before a `$`
      in `s`. */
  predicate MatchesAt(s: string, sub: string, start: nat)
    requires start <= |s|
  {
    var n := Overlap(s, sub, start);
    (forall k :: 0 <= k < n ==> s[start + k] == sub[k]) &&
    (start + n == |s| || s[start + n] == '$')
  }

  /** The visitor's `containsAt`: an index loop over both strings that gives
      up at the first differing character. It reads `s` only below `|s|`,
      which is why the start must not lie beyond the end of `s`. */
  method ContainsAt(s: string, sub: string, start: nat) returns (r: bool)
    requires start <= |s|
    ensures r == MatchesAt(s, sub, start)
  {
    var stringIdx := start;
    var substringIdx := 0;
    var cont := stringIdx < |s| && substringIdx < |sub|;
    while cont
      invariant start <= stringIdx <= |s|
      invariant substringIdx == stringIdx - start <= |sub|
      invariant cont == (stringIdx < |s| && substringIdx < |sub|)
      invariant forall k :: 0 <= k < substringIdx ==> s[start + k] == sub[k]
      decreases |s| - stringIdx
    {
      if s[stringIdx] != sub[substringIdx] {
        return false;
      }
      stringIdx := stringIdx + 1;
      substringIdx := substringIdx + 1;
      cont := stringIdx < |s| && substringIdx < |sub|;
    }
    assert substringIdx == Overlap(s, sub, start);
    return stringIdx == |s| || s[stringIdx] == '$';
  }

  /** A candidate that spells the name's next `$`-delimited segment exactly
      is accepted. */
  lemma MatchesWholeSegment(s: string, sub: string, start: nat)
    requires start + |sub| <= |s|
    requires s[start..start + |sub|] == sub
    requires start + |sub| == |s| || s[start + |sub|] == '$'
    ensures MatchesAt(s, sub, start)
  {
    assert Overlap(s, sub, start) == |sub|;
    forall k | 0 <= k < |sub| ensures s[start + k] == sub[k] {
      assert s[start..start + |sub|][k] == s[start + k];
    }
  }

  /** A candidate that is only a proper prefix of the name's next segment is
      refused. */
  lemma RefusesPrefixOfSegment(s: string, sub: string, start: nat)
    requires start + |sub| < |s|
    requires s[start + |sub|] != '$'
    ensures !MatchesAt(s, sub, start)
  {
  }

  /** A candidate longer than what is left of the name is accepted when the
      overlap agrees: the loop stops at the end of `s`, not at the end of `sub`. */
  lemma AcceptsOverlongCandidate(s: string, sub: string, start: nat)
    requires start <= |s| && |s| - start <= |sub|
    requires s[start..] == sub[..|s| - start]
    ensures MatchesAt(s, sub, start)
  {
    assert Overlap(s, sub, start) == |s| - start;
    forall k | 0 <= k < |s| - start ensures s[start + k] == sub[k] {
      assert s[start..][k] == s[start + k];
      assert sub[..|s| - start][k] == sub[k];
    }
  }
}

/**
 * The string operations the core relies on: Go's strings.TrimSpace and
 * strings.Split with a "," separator, bash's comma join `IFS=,; echo
 * "${A[*]}"` (Join, the inverse of Split), and the few bash idioms the
 * hook scripts use to turn `git rev-list` output into a
 * comma-separated list (`tr '\n' ','`, `${VAR%,}`, `echo … | tr ',' '\n' | wc -l`).
 */
module Text {

  /** Go's unicode.IsSpace: the Latin-1 spaces plus Unicode's White_Space set. */
  predicate IsSpace(c: char) {
    || c == ' ' || c == '\t' || c == '\n' || c == '\U{B}' || c == '\U{C}' || c == '\r'
    || c == '\U{85}' || c == '\U{A0}' || c == '\U{1680}'
    || ('\U{2000}' <= c <= '\U{200A}')
    || c == '\U{2028}' || c == '\U{2029}' || c == '\U{202F}' || c == '\U{205F}' || c == '\U{3000}'
  }

  predicate AllSpace(s: string) {
    forall i :: 0 <= i < |s| ==> IsSpace(s[i])
  }

  /** Drops the leading white space of s. */
  function TrimLeft(s: string): string {
    if s != [] && IsSpace(s[0]) then TrimLeft(s[1..]) else s
  }

  /** Drops the trailing white space of s. */
  function TrimRight(s: string): string {
    if s != [] && IsSpace(s[|s| - 1]) then TrimRight(s[..|s| - 1]) else s
  }

  /** TrimLeft keeps a suffix, cuts only white space and stops at the first other character. */
  lemma {:induction false} TrimLeftSpec(s: string)
    ensures var r := TrimLeft(s);
      && |r| <= |s| && r == s[|s| - |r|..] && AllSpace(s[..|s| - |r|])
      && (r == [] || !IsSpace(r[0]))
  {
    if s != [] && IsSpace(s[0]) {
      TrimLeftSpec(s[1..]);
      var r := TrimLeft(s[1..]);
      assert s[1..][..|s[1..]| - |r|] == s[1..|s| - |r|];
    }
  }

  /** TrimRight keeps a prefix, cuts only white space and stops at the last other character. */
  lemma {:induction false} TrimRightSpec(s: string)
    ensures var r := TrimRight(s);
      && |r| <= |s| && r == s[..|r|] && AllSpace(s[|r|..])
      && (r == [] || !IsSpace(r[|r| - 1]))
  {
    if s != [] && IsSpace(s[|s| - 1]) {
      var t := s[..|s| - 1];
      TrimRightSpec(t);
      var r := TrimRight(t);
      assert TrimRight(s) == r;
      assert r == t[..|r|] == s[..|r|];
      assert s[|r|..] == t[|r|..] + [s[|s| - 1]];
      assert AllSpace(s[|r|..]) by {
        forall k | 0 <= k < |s| - |r|
          ensures IsSpace(s[|r|..][k])
        {
          if k < |t| - |r| {
            assert s[|r|..][k] == t[|r|..][k];
          }
        }
      }
    }
  }

  /**
   * strings.TrimSpace: the longest infix of s that neither starts nor ends
   * with white space; everything cut off on either side is white space.
   */
  function TrimSpace(s: string): (r: string)
  {
    TrimRight(TrimLeft(s))
  }

  /**
   * strings.TrimSpace yields the longest infix of s that neither starts nor
   * ends with white space; everything cut off on either side is white space.
   */
  lemma TrimSpaceSpec(s: string)
    ensures var r := TrimSpace(s);
      && |r| <= |s|
      && (r == [] || (!IsSpace(r[0]) && !IsSpace(r[|r| - 1])))
      && exists i :: 0 <= i <= |s| - |r| && r == s[i..i + |r|] && AllSpace(s[..i]) && AllSpace(s[i + |r|..])
  {
    var l := TrimLeft(s);
    var r := TrimRight(l);
    var i := |s| - |l|;
    TrimLeftSpec(s);
    TrimRightSpec(l);
    SliceOfSuffix(s, i, |r|);
    assert r == s[i..i + |r|] && AllSpace(s[..i]) && AllSpace(s[i + |r|..]);
  }

  /** Slicing a suffix of s is slicing s. */
  lemma SliceOfSuffix<T>(s: seq<T>, i: nat, n: nat)
    requires i + n <= |s|
    ensures s[i..][..n] == s[i..i + n] && s[i..][n..] == s[i + n..]
  {
  }

  /** Trimming is idempotent. */
  lemma TrimSpaceIdempotent(s: string)
    ensures TrimSpace(TrimSpace(s)) == TrimSpace(s)
  {
    TrimSpaceSpec(s);
    var r := TrimSpace(s);
    if r != [] {
      assert TrimLeft(r) == r;
      assert TrimRight(r) == r;
    }
  }

  /** An object name has no white space to trim. */
  lemma TrimName(x: string)
    requires IsName(x)
    ensures TrimSpace(x) == x
  {
    assert !IsSpace(x[0]) && TrimLeft(x) == x;
    assert !IsSpace(x[|x| - 1]) && TrimRight(x) == x;
  }

  /** Bash's `IFS=,; echo "${A[*]}"`: the parts separated by commas. */
  function Join(parts: seq<string>): string {
    if parts == [] then ""
    else if |parts| == 1 then parts[0]
    else parts[0] + "," + Join(parts[1..])
  }

  /** strings.Split(s, ","): the pieces between the commas, at least one. */
  function Split(s: string): (parts: seq<string>)
    ensures |parts| >= 1
    ensures forall i :: 0 <= i < |parts| ==> ',' !in parts[i]
  {
    if s == [] then [""]
    else
      var rest := Split(s[1..]);
      if s[0] == ',' then [""] + rest
      else [[s[0]] + rest[0]] + rest[1..]
  }

  predicate NoComma(parts: seq<string>) {
    forall i :: 0 <= i < |parts| ==> ',' !in parts[i]
  }

  lemma {:induction false} JoinSplit(s: string)
    ensures Join(Split(s)) == s
  {
    if s != [] {
      var rest := Split(s[1..]);
      JoinSplit(s[1..]);
      if s[0] == ',' {
        assert Split(s) == [""] + rest;
      } else {
        var parts := Split(s);
        assert parts == [[s[0]] + rest[0]] + rest[1..];
        if |rest| == 1 {
          assert Join(parts) == [s[0]] + rest[0];
        } else {
          assert parts[1..] == rest[1..];
          assert Join(rest) == rest[0] + "," + Join(rest[1..]);
        }
      }
    }
  }

  lemma {:induction false} SplitJoin(parts: seq<string>)
    requires |parts| >= 1 && NoComma(parts)
    ensures Split(Join(parts)) == parts
  {
    if |parts| == 1 {
      SplitPlain(parts[0]);
    } else {
      SplitJoin(parts[1..]);
      SplitPrefix(parts[0], Join(parts[1..]));
      assert [parts[0]] + parts[1..] == parts;
    }
  }

  /** A string without a comma splits into itself. */
  lemma {:induction false} SplitPlain(s: string)
    requires ',' !in s
    ensures Split(s) == [s]
  {
    if s != [] {
      assert ',' !in s[1..] by { assert forall k :: 0 <= k < |s[1..]| ==> s[1..][k] == s[k + 1]; }
      SplitPlain(s[1..]);
      assert s[0] != ',';
      assert [s[0]] + s[1..] == s;
    }
  }

  lemma {:induction false} SplitPrefix(a: string, b: string)
    requires ',' !in a
    ensures Split(a + "," + b) == [a] + Split(b)
  {
    if a == [] {
      assert a + "," + b == [','] + b;
      assert (a + "," + b)[1..] == b;
    } else {
      assert ',' !in a[1..] by { assert forall k :: 0 <= k < |a[1..]| ==> a[1..][k] == a[k + 1]; }
      SplitPrefix(a[1..], b);
      assert (a + "," + b)[1..] == a[1..] + "," + b;
      assert (a + "," + b)[0] == a[0] != ',';
      assert [a[0]] + a[1..] == a;
    }
  }

  /** The number of occurrences of c in s. */
  function Count(s: string, c: char): nat {
    if s == [] then 0 else (if s[0] == c then 1 else 0) + Count(s[1..], c)
  }

  /** `tr from to`. */
  function Translate(s: string, from: char, to: char): (r: string)
    ensures |r| == |s|
    ensures forall i :: 0 <= i < |s| ==> r[i] == if s[i] == from then to else s[i]
  {
    if s == [] then [] else [if s[0] == from then to else s[0]] + Translate(s[1..], from, to)
  }

  /** The stdout of a command that prints each line followed by a newline. */
  function Lines(xs: seq<string>): string {
    if xs == [] then "" else xs[0] + "\n" + Lines(xs[1..])
  }

  /** `${s%,}`: drops one trailing comma, if there is one. */
  function StripTrailingComma(s: string): (r: string)
    ensures s != [] && s[|s| - 1] == ',' ==> r + "," == s
    ensures (s == [] || s[|s| - 1] != ',') ==> r == s
  {
    if s != [] && s[|s| - 1] == ',' then s[..|s| - 1] else s
  }

  /** `echo "$s" | tr ',' '\n' | wc -l`. */
  function LineCount(s: string): nat {
    Count(Translate(s + "\n", ',', '\n'), '\n')
  }

  /** A git object name as printed on a line: non-empty, no comma, no white space. */
  predicate IsName(x: string) {
    x != [] && ',' !in x && forall i :: 0 <= i < |x| ==> !IsSpace(x[i])
  }

  predicate AllNames(xs: seq<string>) {
    forall i :: 0 <= i < |xs| ==> IsName(xs[i])
  }

  function Reverse<T>(xs: seq<T>): (r: seq<T>)
    ensures |r| == |xs|
    ensures forall i :: 0 <= i < |xs| ==> r[i] == xs[|xs| - 1 - i]
  {
    if xs == [] then [] else Reverse(xs[1..]) + [xs[0]]
  }

  lemma {:induction false} CountAppend(a: string, b: string, c: char)
    ensures Count(a + b, c) == Count(a, c) + Count(b, c)
  {
    if a != [] {
      assert (a + b)[1..] == a[1..] + b;
      CountAppend(a[1..], b, c);
    } else {
      assert a + b == b;
    }
  }

  lemma {:induction false} CountAbsent(s: string, c: char)
    requires c !in s
    ensures Count(s, c) == 0
  {
    if s != [] {
      assert c !in s[1..] by { assert forall k :: 0 <= k < |s[1..]| ==> s[1..][k] == s[k + 1]; }
      CountAbsent(s[1..], c);
    }
  }

  lemma TranslateAppend(a: string, b: string, from: char, to: char)
    ensures Translate(a + b, from, to) == Translate(a, from, to) + Translate(b, from, to)
  {
  }

  lemma TranslateAbsent(s: string, from: char, to: char)
    requires from !in s
    ensures Translate(s, from, to) == s
  {
  }

  /**
   * The hooks' pipeline `git rev-list … | tr '\n' ','` followed by `${X%,}`
   * turns a list of object names into their comma-separated join.
   */
  lemma {:induction false} PipelineJoins(xs: seq<string>)
    requires AllNames(xs)
    ensures StripTrailingComma(Translate(Lines(xs), '\n', ',')) == Join(xs)
  {
    if xs != [] {
      var t := Translate(Lines(xs[1..]), '\n', ',');
      AllNamesTail(xs);
      PipelineJoins(xs[1..]);
      HeadTail(xs);
      TranslateLine(xs[0], xs[1..]);
      if xs[1..] == [] {
        assert t == [];
        assert xs[0] + "," + t == xs[0] + ",";
      } else {
        LinesEndsInNewline(xs[1..]);
        TranslatedEndsInComma(Lines(xs[1..]));
        StripAfterPrefix(xs[0], t);
      }
    }
  }

  lemma HeadTail<T>(xs: seq<T>)
    requires xs != []
    ensures [xs[0]] + xs[1..] == xs
  {
  }

  lemma AllNamesTail(xs: seq<string>)
    requires xs != [] && AllNames(xs)
    ensures AllNames(xs[1..])
  {
    assert forall k :: 0 <= k < |xs| - 1 ==> xs[1..][k] == xs[k + 1];
  }

  /** Translating one more line: the name, then the comma that replaced its newline. */
  lemma TranslateLine(x: string, rest: seq<string>)
    requires IsName(x)
    ensures Translate(Lines([x] + rest), '\n', ',') == x + "," + Translate(Lines(rest), '\n', ',')
  {
    var l := Lines(rest);
    assert ([x] + rest)[1..] == rest;
    assert Lines([x] + rest) == (x + "\n") + l;
    TranslateAppend(x + "\n", l, '\n', ',');
    TranslateAppend(x, "\n", '\n', ',');
    assert Translate("\n", '\n', ',') == ",";
    assert '\n' !in x by { assert IsSpace('\n'); }
    TranslateAbsent(x, '\n', ',');
    assert Translate(x + "\n", '\n', ',') == x + ",";
  }

  lemma TranslatedEndsInComma(s: string)
    requires s != [] && s[|s| - 1] == '\n'
    ensures var t := Translate(s, '\n', ','); t != [] && t[|t| - 1] == ','
  {
  }

  lemma StripAfterPrefix(x: string, t: string)
    requires t != [] && t[|t| - 1] == ','
    ensures StripTrailingComma(x + "," + t) == x + "," + StripTrailingComma(t)
  {
    assert (x + "," + t)[..|x + "," + t| - 1] == x + "," + t[..|t| - 1];
  }

  lemma {:induction false} LinesEndsInNewline(xs: seq<string>)
    requires xs != []
    ensures Lines(xs) != [] && Lines(xs)[|Lines(xs)| - 1] == '\n'
  {
    if xs[1..] != [] {
      LinesEndsInNewline(xs[1..]);
    }
  }

  /** `echo "$X" | tr ',' '\n' | wc -l` counts the entries of a comma-joined list of names. */
  lemma {:induction false} LineCountJoin(xs: seq<string>)
    requires xs != [] && AllNames(xs)
    ensures LineCount(Join(xs)) == |xs|
  {
    JoinCommas(xs);
    var j := Join(xs);
    TranslateAppend(j, "\n", ',', '\n');
    assert Translate("\n", ',', '\n') == "\n";
    CountAppend(Translate(j, ',', '\n'), "\n", '\n');
    assert Count("\n", '\n') == 1;
    TranslateCount(j);
  }

  /** Join(xs) holds |xs| - 1 commas and no newline. */
  lemma {:induction false} JoinCommas(xs: seq<string>)
    requires xs != [] && AllNames(xs)
    ensures Count(Join(xs), ',') == |xs| - 1 && '\n' !in Join(xs)
  {
    assert IsName(xs[0]);
    assert '\n' !in xs[0] by { assert IsSpace('\n'); }
    CountAbsent(xs[0], ',');
    if |xs| > 1 {
      assert AllNames(xs[1..]) by { assert forall k :: 0 <= k < |xs| - 1 ==> xs[1..][k] == xs[k + 1]; }
      JoinCommas(xs[1..]);
      CountAppend(xs[0] + ",", Join(xs[1..]), ',');
      CountAppend(xs[0], ",", ',');
    }
  }

  /** After `tr ',' '\n'`, a string without newlines has one newline per comma. */
  lemma {:induction false} TranslateCount(s: string)
    requires '\n' !in s
    ensures Count(Translate(s, ',', '\n'), '\n') == Count(s, ',')
  {
    if s != [] {
      assert '\n' !in s[1..] by { assert forall k :: 0 <= k < |s[1..]| ==> s[1..][k] == s[k + 1]; }
      TranslateCount(s[1..]);
      assert Translate(s, ',', '\n')[1..] == Translate(s[1..], ',', '\n');
    }
  }
}

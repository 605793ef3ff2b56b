/**
 * The parts of Rust's `str` that the config store relies on: the whitespace
 * class shared by `char::is_whitespace`, `str::trim` and the regex class `\s`,
 * trimming, and `str::lines`.
 */
module Text {

  /** Unicode White_Space, the set both `char::is_whitespace` and `\s` accept. */
  predicate IsSpace(c: char) {
    ('\t' <= c <= '\r') || c == ' ' || c == '\U{85}' || c == '\U{A0}' || c == '\U{1680}'
    || ('\U{2000}' <= c <= '\U{200A}') || c == '\U{2028}' || c == '\U{2029}'
    || c == '\U{202F}' || c == '\U{205F}' || c == '\U{3000}'
  }

  predicate AllSpace(s: string) {
    forall i :: 0 <= i < |s| ==> IsSpace(s[i])
  }

  /** No whitespace at either end: what `trim` returns and leaves unchanged. */
  predicate Trimmed(s: string) {
    s == [] || (!IsSpace(s[0]) && !IsSpace(s[|s| - 1]))
  }

  /** `str::trim_start`: `s` without its leading whitespace. */
  function TrimStart(s: string): (r: string)
    ensures |r| <= |s|
    decreases |s|
  {
    if s != [] && IsSpace(s[0]) then TrimStart(s[1..]) else s
  }

  /** `str::trim_end`: `s` without its trailing whitespace. */
  function TrimEnd(s: string): (r: string)
    ensures |r| <= |s|
    decreases |s|
  {
    if s != [] && IsSpace(s[|s| - 1]) then TrimEnd(s[..|s| - 1]) else s
  }

  /** `str::trim`: `s` without its leading and trailing whitespace. */
  function Trim(s: string): string
  {
    TrimEnd(TrimStart(s))
  }

  /** The number of whitespace characters `trim` removes from the front of `s`. */
  function LeadingSpace(s: string): nat
  {
    |s| - |TrimStart(s)|
  }

  /** `trim_start` keeps the longest suffix that does not start with whitespace. */
  lemma {:induction false} TrimStartShape(s: string)
    ensures TrimStart(s) == s[LeadingSpace(s)..]
    ensures AllSpace(s[..LeadingSpace(s)])
    ensures TrimStart(s) == [] || !IsSpace(TrimStart(s)[0])
    decreases |s|
  {
    if s != [] && IsSpace(s[0]) {
      TrimStartShape(s[1..]);
      assert s[1..][..LeadingSpace(s[1..])] == s[1..LeadingSpace(s)];
    }
  }

  /** `trim_end` keeps the longest prefix that does not end with whitespace. */
  lemma {:induction false} TrimEndShape(s: string)
    ensures TrimEnd(s) == s[..|TrimEnd(s)|]
    ensures AllSpace(s[|TrimEnd(s)|..])
    ensures TrimEnd(s) == [] || !IsSpace(TrimEnd(s)[|TrimEnd(s)| - 1])
    decreases |s|
  {
    if s != [] && IsSpace(s[|s| - 1]) {
      var s' := s[..|s| - 1];
      TrimEndShape(s');
      assert s'[..|TrimEnd(s')|] == s[..|TrimEnd(s')|];
      assert s[|TrimEnd(s)|..] == s'[|TrimEnd(s')|..] + [s[|s| - 1]];
    }
  }

  /**
   * `trim` keeps a middle slice of `s` with only whitespace on both sides of it,
   * and what it keeps does not start or end with whitespace.
   */
  lemma TrimShape(s: string)
    ensures Trimmed(Trim(s))
    ensures LeadingSpace(s) + |Trim(s)| <= |s|
    ensures Trim(s) == s[LeadingSpace(s)..LeadingSpace(s) + |Trim(s)|]
    ensures AllSpace(s[..LeadingSpace(s)]) && AllSpace(s[LeadingSpace(s) + |Trim(s)|..])
  {
    var t := TrimStart(s);
    TrimStartShape(s);
    TrimEndShape(t);
    var off := LeadingSpace(s);
    var r := Trim(s);
    assert t[..|r|] == s[off..off + |r|];
    assert t[|r|..] == s[off + |r|..];
  }

  /** Leading whitespace never changes what `trim_start` returns. */
  lemma {:induction false} TrimStartSkip(s: string, j: nat)
    requires j <= |s| && AllSpace(s[..j])
    ensures TrimStart(s[j..]) == TrimStart(s)
  {
    if j > 0 {
      assert IsSpace(s[..j][0]);
      assert s[1..][..j - 1] == s[1..j];
      assert s[1..][j - 1..] == s[j..];
      TrimStartSkip(s[1..], j - 1);
    }
  }

  /** If `s[j]` is the first non-whitespace character, `trim_start` cuts exactly at `j`. */
  lemma TrimStartAt(s: string, j: nat)
    requires j < |s| && AllSpace(s[..j]) && !IsSpace(s[j])
    ensures TrimStart(s) == s[j..]
  {
    TrimStartSkip(s, j);
  }

  /** Dropping leading whitespace never changes what `trim` returns. */
  lemma TrimSkip(s: string, k: nat)
    requires k <= |s| && AllSpace(s[..k])
    ensures Trim(s[k..]) == Trim(s)
  {
    TrimStartSkip(s, k);
  }

  /** A trimmed value behind one separating space trims back to itself. */
  lemma TrimAfterSpace(v: string)
    requires Trimmed(v)
    ensures Trim([' '] + v) == v
  {
    assert ([' '] + v)[1..] == v;
    assert TrimStart(v) == v;
    assert TrimEnd(v) == v;
  }

  /** `trim` leaves exactly the trimmed strings unchanged. */
  lemma TrimFixed(s: string)
    ensures Trim(s) == s <==> Trimmed(s)
  {
    TrimShape(s);
  }

  /** The characters `trim` keeps all come from its argument. */
  lemma TrimKeeps(s: string, c: char)
    requires c !in s
    ensures c !in Trim(s)
  {
    var r := Trim(s);
    var off := LeadingSpace(s);
    TrimShape(s);
    forall k | 0 <= k < |r|
      ensures r[k] != c
    {
      assert r[k] == s[off + k];
    }
  }

  /** The index of the first '\n' in `s`, or `|s|` when there is none. */
  function NewlineIndex(s: string): (k: nat)
    ensures k <= |s|
    ensures forall i :: 0 <= i < k ==> s[i] != '\n'
    ensures k < |s| ==> s[k] == '\n'
  {
    if s == [] || s[0] == '\n' then 0 else 1 + NewlineIndex(s[1..])
  }

  /** Removes one '\r' that ended a "\r\n" terminator. */
  function StripCR(line: string): string
  {
    if |line| > 0 && line[|line| - 1] == '\r' then line[..|line| - 1] else line
  }

  /**
   * `str::lines`: split at each '\n'; a '\r' directly before a '\n' belongs to
   * the terminator; a final terminator does not start another (empty) line.
   */
  function Lines(s: string): (r: seq<string>)
    ensures forall k :: 0 <= k < |r| ==> '\n' !in r[k]
    decreases |s|
  {
    if s == [] then []
    else
      var k := NewlineIndex(s);
      if k == |s| then [s] else [StripCR(s[..k])] + Lines(s[k + 1..])
  }

  /** A line that can be written with a '\n' after it and read back unchanged. */
  predicate LineSafe(line: string) {
    '\n' !in line && (line == [] || line[|line| - 1] != '\r')
  }

  /** Each line followed by '\n': the shape of the text the store writes. */
  function Terminated(lines: seq<string>): string
  {
    if lines == [] then [] else lines[0] + "\n" + Terminated(lines[1..])
  }

  lemma {:induction false} TerminatedAppend(a: seq<string>, b: seq<string>)
    ensures Terminated(a + b) == Terminated(a) + Terminated(b)
  {
    if a != [] {
      assert (a + b)[1..] == a[1..] + b;
      TerminatedAppend(a[1..], b);
    } else {
      assert a + b == b;
    }
  }

  lemma {:induction false} TerminatedEndsWithNewline(lines: seq<string>)
    requires lines != []
    ensures |Terminated(lines)| > 0 && Terminated(lines)[|Terminated(lines)| - 1] == '\n'
  {
    var t := Terminated(lines[1..]);
    assert Terminated(lines) == lines[0] + "\n" + t;
    if lines[1..] == [] {
      assert t == [];
      assert Terminated(lines) == lines[0] + "\n";
    } else {
      TerminatedEndsWithNewline(lines[1..]);
      assert Terminated(lines)[|Terminated(lines)| - 1] == t[|t| - 1];
    }
  }

  /** The first line of a text is everything up to its first '\n'. */
  lemma FirstLine(x: string, rest: string)
    requires '\n' !in x
    ensures NewlineIndex(x + "\n" + rest) == |x|
  {
    var s := x + "\n" + rest;
    assert s[|x|] == '\n';
    assert forall i :: 0 <= i < |x| ==> s[i] == x[i];
  }

  /** Writing lines with '\n' terminators and splitting them again gives them back. */
  lemma {:induction false} LinesOfTerminated(lines: seq<string>)
    requires forall k :: 0 <= k < |lines| ==> LineSafe(lines[k])
    ensures Lines(Terminated(lines)) == lines
  {
    if lines != [] {
      var s := Terminated(lines);
      var x := lines[0];
      assert LineSafe(x);
      FirstLine(x, Terminated(lines[1..]));
      assert s[..|x|] == x;
      assert s[|x| + 1..] == Terminated(lines[1..]);
      LinesOfTerminated(lines[1..]);
    }
  }

  /** The first '\n' of `a` is still the first one once `b` follows it. */
  lemma {:induction false} NewlineIndexPrefix(a: string, b: string)
    requires NewlineIndex(a) < |a|
    ensures NewlineIndex(a + b) == NewlineIndex(a)
  {
    if a[0] != '\n' {
      assert (a + b)[1..] == a[1..] + b;
      NewlineIndexPrefix(a[1..], b);
    }
  }

  /** Splitting distributes over a concatenation whose left part ends a line. */
  lemma {:induction false} LinesAppend(a: string, b: string)
    requires a == [] || a[|a| - 1] == '\n'
    ensures Lines(a + b) == Lines(a) + Lines(b)
    decreases |a|
  {
    if a != [] {
      var s := a + b;
      var k := NewlineIndex(a);
      assert a[|a| - 1] == '\n';
      assert k < |a|;
      NewlineIndexPrefix(a, b);
      assert s[..k] == a[..k];
      assert s[k + 1..] == a[k + 1..] + b;
      var a' := a[k + 1..];
      assert a' == [] || a'[|a'| - 1] == '\n';
      LinesAppend(a', b);
      assert Lines(s) == [StripCR(a[..k])] + Lines(a' + b);
      assert Lines(a) == [StripCR(a[..k])] + Lines(a');
    } else {
      assert a + b == b;
    }
  }

  /** A leading '\n' is an empty first line. */
  lemma LinesAfterNewline(b: string)
    ensures Lines("\n" + b) == [""] + Lines(b)
  {
    assert ("\n" + b)[1..] == b;
  }

  /** A text that ends a line, a '\n' and another text: an empty line between the two. */
  lemma LinesJoin(front: string, s: string)
    requires |front| > 0 && front[|front| - 1] == '\n'
    ensures Lines(front + "\n" + s) == Lines(front) + [""] + Lines(s)
  {
    assert front + "\n" + s == front + ("\n" + s);
    LinesAppend(front, "\n" + s);
    LinesAfterNewline(s);
  }
}

/** The string operations of the Rust library that the boot code parses with. */
module Text {
  import opened Prelude

  /** `char::is_whitespace`: the White_Space property of Unicode. */
  predicate IsSpace(c: char) {
    var u := c as int;
    || 9 <= u <= 13 || u == 0x20 || u == 0x85 || u == 0xA0 || u == 0x1680
    || 0x2000 <= u <= 0x200A || u == 0x2028 || u == 0x2029 || u == 0x202F || u == 0x205F || u == 0x3000
  }

  predicate StartsWith(s: string, c: char) {
    s != [] && s[0] == c
  }

  function TrimStart(s: string): string {
    if s != [] && IsSpace(s[0]) then TrimStart(s[1..]) else s
  }

  function TrimEnd(s: string): string {
    if s != [] && IsSpace(s[|s| - 1]) then TrimEnd(s[..|s| - 1]) else s
  }

  function Trim(s: string): string {
    TrimEnd(TrimStart(s))
  }

  function StripCr(s: string): string {
    if s != [] && s[|s| - 1] == '\r' then s[..|s| - 1] else s
  }

  /** `str::lines` */
  function Lines(s: string): seq<string>
    decreases |s|
  {
    var i := IndexOf(s, '\n');
    if i < |s| then [StripCr(s[..i])] + Lines(s[i + 1..])
    else if s == [] then []
    else [s]
  }

  function WordLength(s: string): (n: nat)
    ensures n <= |s|
    ensures forall i :: 0 <= i < n ==> !IsSpace(s[i])
    ensures n < |s| ==> IsSpace(s[n])
  {
    if s == [] || IsSpace(s[0]) then 0 else 1 + WordLength(s[1..])
  }

  /** `str::split_whitespace` */
  function Words(s: string): seq<string>
    decreases |s|
  {
    if s == [] then []
    else if IsSpace(s[0]) then Words(s[1..])
    else [s[..WordLength(s)]] + Words(s[WordLength(s)..])
  }

  /** `join(" ")` */
  function JoinSpace(words: seq<string>): string {
    if words == [] then ""
    else if |words| == 1 then words[0]
    else words[0] + " " + JoinSpace(words[1..])
  }

  /** `replace('/', "\\")` */
  function Backslashes(s: string): (r: string)
    ensures |r| == |s|
    ensures forall i :: 0 <= i < |s| ==> r[i] == if s[i] == '/' then '\\' else s[i]
  {
    seq(|s|, i requires 0 <= i < |s| => if s[i] == '/' then '\\' else s[i])
  }

  predicate EndsWith(s: string, suffix: string) {
    |suffix| <= |s| && s[|s| - |suffix|..] == suffix
  }

  predicate OccursAt(s: string, part: string, i: nat) {
    i + |part| <= |s| && s[i..i + |part|] == part
  }

  predicate Contains(s: string, part: string) {
    exists i: nat :: i <= |s| && OccursAt(s, part, i)
  }

  function Flatten<T>(parts: seq<seq<T>>): seq<T> {
    if parts == [] then [] else parts[0] + Flatten(parts[1..])
  }

  lemma {:induction false} FlattenConcat<T>(a: seq<seq<T>>, b: seq<seq<T>>)
    ensures Flatten(a + b) == Flatten(a) + Flatten(b)
  {
    if a == [] {
      assert a + b == b;
    } else {
      assert (a + b)[1..] == a[1..] + b;
      FlattenConcat(a[1..], b);
    }
  }

  lemma FlattenStep<T>(parts: seq<seq<T>>, k: nat)
    requires k < |parts|
    ensures Flatten(parts[..k + 1]) == Flatten(parts[..k]) + parts[k]
  {
    assert parts[..k + 1] == parts[..k] + [parts[k]];
    FlattenConcat(parts[..k], [parts[k]]);
    assert Flatten([parts[k]]) == parts[k] + Flatten([]);
  }

  // ---- Lines ----

  /** A newline ends a line, and a carriage return before it goes with it. */
  lemma LineSplits(a: string, b: string)
    requires '\n' !in a
    ensures Lines(a + "\n" + b) == [if a != [] && a[|a| - 1] == '\r' then a[..|a| - 1] else a] + Lines(b)
  {
    var s := a + "\n" + b;
    assert s[|a|] == '\n';
    assert forall i :: 0 <= i < |a| ==> s[i] == a[i];
    IndexOfUnique(s, '\n', |a|);
    assert s[..|a|] == a && s[|a| + 1..] == b;
  }

  /** What follows the last newline is a line too, unless it is empty. */
  lemma LastLine(s: string)
    requires '\n' !in s
    ensures Lines(s) == if s == [] then [] else [s]
  {
    assert IndexOf(s, '\n') == |s|;
  }

  /** Some pieces with a newline between any two. */
  function JoinLines(pieces: seq<string>): string
    requires pieces != []
  {
    if |pieces| == 1 then pieces[0] else pieces[0] + "\n" + JoinLines(pieces[1..])
  }

  predicate NoNewlines(pieces: seq<string>) {
    forall i :: 0 <= i < |pieces| ==> '\n' !in pieces[i]
  }

  /** Every text is made of such pieces. */
  lemma {:induction false} AnyText(s: string) returns (pieces: seq<string>)
    ensures pieces != [] && NoNewlines(pieces) && JoinLines(pieces) == s
    decreases |s|
  {
    var i := IndexOf(s, '\n');
    if i == |s| {
      pieces := [s];
    } else {
      var rest := AnyText(s[i + 1..]);
      pieces := [s[..i]] + rest;
      assert pieces[1..] == rest;
      assert s == s[..i] + "\n" + s[i + 1..];
    }
  }

  // ---- Trimming ----

  /** The 25 characters with the White_Space property. */
  lemma IsSpaceIff(c: char)
    ensures IsSpace(c) <==>
            c in "\t\n\U{0b}\U{0c}\r \U{85}\U{a0}\U{1680}\U{2000}\U{2001}\U{2002}\U{2003}\U{2004}" +
                 "\U{2005}\U{2006}\U{2007}\U{2008}\U{2009}\U{200a}\U{2028}\U{2029}\U{202f}\U{205f}\U{3000}"
  {
    var spaces := "\t\n\U{0b}\U{0c}\r \U{85}\U{a0}\U{1680}\U{2000}\U{2001}\U{2002}\U{2003}\U{2004}" +
                  "\U{2005}\U{2006}\U{2007}\U{2008}\U{2009}\U{200a}\U{2028}\U{2029}\U{202f}\U{205f}\U{3000}";
    if IsSpace(c) {
      assert c in spaces;
    }
  }

  predicate AllSpaces(s: string) {
    forall i :: 0 <= i < |s| ==> IsSpace(s[i])
  }

  lemma {:induction false} TrimStartCut(a: string, s: string)
    requires AllSpaces(a) && (s == [] || !IsSpace(s[0]))
    ensures TrimStart(a + s) == s
  {
    if a == [] {
      assert a + s == s;
    } else {
      assert (a + s)[1..] == a[1..] + s;
      TrimStartCut(a[1..], s);
    }
  }

  lemma {:induction false} TrimEndCut(s: string, b: string)
    requires AllSpaces(b) && (s == [] || !IsSpace(s[|s| - 1]))
    ensures TrimEnd(s + b) == s
  {
    if b == [] {
      assert s + b == s;
    } else {
      assert (s + b)[..|s + b| - 1] == s + b[..|b| - 1];
      TrimEndCut(s, b[..|b| - 1]);
    }
  }

  /** Trimming takes off the whitespace around a text and nothing else. */
  lemma TrimMeaning(a: string, t: string, b: string)
    requires AllSpaces(a) && AllSpaces(b)
    requires t != [] ==> !IsSpace(t[0]) && !IsSpace(t[|t| - 1])
    ensures Trim(a + t + b) == t
  {
    if t == [] {
      assert a + t + b == (a + b) + [];
      TrimStartCut(a + b, []);
    } else {
      assert a + t + b == a + (t + b);
      TrimStartCut(a, t + b);
      TrimEndCut(t, b);
    }
  }

  predicate Trimmed(s: string) {
    s == [] || (!IsSpace(s[0]) && !IsSpace(s[|s| - 1]))
  }

  lemma {:induction false} TrimStartFacts(s: string)
    ensures var r := TrimStart(s);
            |r| <= |s| && r == s[|s| - |r|..] && (r != [] ==> !IsSpace(r[0]))
  {
    if s != [] && IsSpace(s[0]) {
      TrimStartFacts(s[1..]);
    }
  }

  lemma {:induction false} TrimEndFacts(s: string)
    ensures var r := TrimEnd(s);
            |r| <= |s| && r == s[..|r|] && (r != [] ==> !IsSpace(r[|r| - 1]))
  {
    if s != [] && IsSpace(s[|s| - 1]) {
      TrimEndFacts(s[..|s| - 1]);
    }
  }

  lemma TrimFacts(s: string)
    ensures Trimmed(Trim(s)) && |Trim(s)| <= |s|
    ensures forall c :: c in Trim(s) ==> c in s
    ensures Trimmed(s) ==> Trim(s) == s
  {
    TrimStartFacts(s);
    TrimEndFacts(TrimStart(s));
  }

  lemma {:induction false} TrimStartSpaces(s: string)
    ensures |TrimStart(s)| <= |s| && AllSpaces(s[..|s| - |TrimStart(s)|])
  {
    TrimStartFacts(s);
    if s != [] && IsSpace(s[0]) {
      TrimStartFacts(s[1..]);
      TrimStartSpaces(s[1..]);
      var n := |s| - |TrimStart(s)|;
      assert forall i :: 1 <= i < n ==> s[i] == s[1..][..n - 1][i - 1];
    }
  }

  lemma {:induction false} TrimEndSpaces(s: string)
    ensures |TrimEnd(s)| <= |s| && AllSpaces(s[|TrimEnd(s)|..])
  {
    TrimEndFacts(s);
    if s != [] && IsSpace(s[|s| - 1]) {
      var front := s[..|s| - 1];
      TrimEndFacts(front);
      TrimEndSpaces(front);
      var n := |TrimEnd(s)|;
      assert forall i :: n <= i < |front| ==> s[i] == front[n..][i - n];
    }
  }


  /** Every text is whitespace, then what is left of it, then whitespace. */
  lemma TrimParts(s: string) returns (a: string, b: string)
    ensures s == a + Trim(s) + b && AllSpaces(a) && AllSpaces(b) && Trimmed(Trim(s))
  {
    var t := TrimStart(s);
    TrimStartFacts(s);
    TrimStartSpaces(s);
    TrimEndFacts(t);
    TrimEndSpaces(t);
    a, b := s[..|s| - |t|], t[|TrimEnd(t)|..];
    assert s == a + t && t == TrimEnd(t) + b;
    TrimFacts(s);
  }

  /** A carriage return at the end makes no difference. */
  lemma TrimStripCr(s: string)
    ensures Trim(StripCr(s)) == Trim(s)
  {
    if StripCr(s) != s {
      var front := s[..|s| - 1];
      var a, b := TrimParts(front);
      assert s == a + Trim(front) + (b + "\r");
      TrimMeaning(a, Trim(front), b + "\r");
    }
  }

  // ---- Searching ----

  lemma EndsWithIff(s: string, suffix: string)
    ensures EndsWith(s, suffix) <==> exists front :: s == front + suffix
  {
    if EndsWith(s, suffix) {
      assert s == s[..|s| - |suffix|] + suffix;
    }
    if front :| s == front + suffix {
      assert s[|s| - |suffix|..] == suffix;
    }
  }

  lemma ContainsIff(s: string, part: string)
    ensures Contains(s, part) <==> exists a, b :: s == a + part + b
  {
    if Contains(s, part) {
      var i: nat :| i <= |s| && OccursAt(s, part, i);
      assert s == s[..i] + part + s[i + |part|..];
    }
    if a, b :| s == a + part + b {
      assert s[|a|..|a| + |part|] == part;
      assert OccursAt(s, part, |a|);
    }
  }

  // ---- Words ----

  /** A nonempty piece without whitespace. */
  predicate IsWord(s: string) {
    s != [] && forall c :: c in s ==> !IsSpace(c)
  }

  lemma {:induction false} WordsAreWords(s: string)
    ensures forall w :: w in Words(s) ==> IsWord(w)
    decreases |s|
  {
    if s != [] {
      if IsSpace(s[0]) {
        WordsAreWords(s[1..]);
      } else {
        WordsAreWords(s[WordLength(s)..]);
      }
    }
  }

  /** A whitespace character separates words. */
  lemma {:induction false} WordsSplit(a: string, c: char, b: string)
    requires IsSpace(c)
    ensures Words(a + [c] + b) == Words(a) + Words(b)
    decreases |a|
  {
    var s := a + [c] + b;
    if a == [] {
      assert s[1..] == b;
    } else if IsSpace(a[0]) {
      assert s[1..] == a[1..] + [c] + b;
      WordsSplit(a[1..], c, b);
    } else {
      var n := WordLength(a);
      FirstWordSplit(a, c, b);
      WordsSplit(a[n..], c, b);
      assert [a[..n]] + (Words(a[n..]) + Words(b)) == [a[..n]] + Words(a[n..]) + Words(b);
    }
  }

  lemma FirstWordSplit(a: string, c: char, b: string)
    requires a != [] && !IsSpace(a[0]) && IsSpace(c)
    ensures var n := WordLength(a);
            Words(a + [c] + b) == [a[..n]] + Words(a[n..] + [c] + b)
  {
    var s, n := a + [c] + b, WordLength(a);
    assert forall i :: 0 <= i < n ==> s[i] == a[i];
    assert s[n] == if n < |a| then a[n] else c;
    WordLengthUnique(s, n);
    assert s[..n] == a[..n];
    assert s[n..] == a[n..] + [c] + b;
  }

  lemma {:induction false} WordLengthUnique(s: string, n: nat)
    requires n <= |s| && (n < |s| ==> IsSpace(s[n]))
    requires forall i :: 0 <= i < n ==> !IsSpace(s[i])
    ensures WordLength(s) == n
  {
    if n > 0 {
      WordLengthUnique(s[1..], n - 1);
    }
  }

  lemma WordsOfWord(w: string)
    requires IsWord(w)
    ensures Words(w) == [w]
  {
    assert forall i :: 0 <= i < |w| ==> w[i] in w;
    WordLengthUnique(w, |w|);
    assert w[..|w|] == w && w[|w|..] == [];
  }

  /** Splitting undoes joining. */
  lemma {:induction false} WordsOfJoin(words: seq<string>)
    requires forall w :: w in words ==> IsWord(w)
    ensures Words(JoinSpace(words)) == words
  {
    if words != [] {
      assert words[0] in words;
      WordsOfWord(words[0]);
      if |words| > 1 {
        WordsOfJoin(words[1..]);
        WordsSplit(words[0], ' ', JoinSpace(words[1..]));
      }
    }
  }

  /** Single blanks between the words, and no other whitespace. */
  predicate SingleBlanks(s: string) {
    && Trimmed(s)
    && forall i :: 0 <= i < |s| && IsSpace(s[i]) ==> s[i] == ' ' && (i + 1 < |s| ==> !IsSpace(s[i + 1]))
  }

  lemma {:induction false} JoinSingleBlanks(words: seq<string>)
    requires forall w :: w in words ==> IsWord(w)
    ensures SingleBlanks(JoinSpace(words))
    ensures words != [] ==> JoinSpace(words) != [] && JoinSpace(words)[0] == words[0][0]
  {
    if words != [] {
      var w := words[0];
      assert w in words;
      assert forall i :: 0 <= i < |w| ==> w[i] in w;
      if |words| > 1 {
        assert words[1] in words;
        var rest := JoinSpace(words[1..]);
        JoinSingleBlanks(words[1..]);
        var s := w + " " + rest;
        assert words[1][0] in words[1];
        assert forall i :: |w| < i < |s| ==> s[i] == rest[i - |w| - 1];
      }
    }
  }

  /** Joining two lists of words puts a blank between them. */
  lemma {:induction false} JoinConcat(a: seq<string>, b: seq<string>)
    requires a != [] && b != []
    ensures JoinSpace(a + b) == JoinSpace(a) + " " + JoinSpace(b)
  {
    assert (a + b)[1..] == a[1..] + b;
    if |a| > 1 {
      JoinConcat(a[1..], b);
      assert a[0] + " " + (JoinSpace(a[1..]) + " " + JoinSpace(b)) ==
             a[0] + " " + JoinSpace(a[1..]) + " " + JoinSpace(b);
    } else {
      assert a[1..] + b == b;
    }
  }

  lemma {:induction false} WordsTrimStart(s: string)
    ensures Words(TrimStart(s)) == Words(s)
  {
    if s != [] && IsSpace(s[0]) {
      WordsTrimStart(s[1..]);
    }
  }

  lemma {:induction false} WordsTrimEnd(s: string)
    ensures Words(TrimEnd(s)) == Words(s)
  {
    if s != [] && IsSpace(s[|s| - 1]) {
      WordsTrimEnd(s[..|s| - 1]);
      WordsSplit(s[..|s| - 1], s[|s| - 1], []);
      assert s == s[..|s| - 1] + [s[|s| - 1]] + [];
    }
  }

  lemma WordsTrim(s: string)
    ensures Words(Trim(s)) == Words(s)
  {
    WordsTrimStart(s);
    WordsTrimEnd(TrimStart(s));
  }
}

/** The field pattern `\w{3,4}=\w{1,4};` the frame validator counts, and Go's
    `FindAll` over it as a leftmost scan that jumps past each match.

    `=` and `;` are not word characters, so at a given position the name is exactly
    the run of word characters before the `=` and the value is exactly the run before
    the `;`: at most one match starts at any position, and the scan below finds the
    same non-overlapping matches as the regular-expression engine. */
module Pattern {
  import opened Wrappers

  /** `\w` in Go's regular expressions: `[0-9A-Za-z_]`. */
  predicate IsWordChar(c: char)
  {
    '0' <= c <= '9' || 'A' <= c <= 'Z' || 'a' <= c <= 'z' || c == '_'
  }

  /** Length of the longest run of word characters in `s` starting at index `i`. */
  function WordRun(s: string, i: nat): (n: nat)
    requires i <= |s|
    ensures i + n <= |s|
    decreases |s| - i
  {
    if i < |s| && IsWordChar(s[i]) then 1 + WordRun(s, i + 1) else 0
  }

  /** The run is all word characters and stops at the end or at a non-word character. */
  lemma {:induction false} WordRunMeaning(s: string, i: nat)
    requires i <= |s|
    ensures forall j :: i <= j < i + WordRun(s, i) ==> IsWordChar(s[j])
    ensures i + WordRun(s, i) == |s| || !IsWordChar(s[i + WordRun(s, i)])
    decreases |s| - i
  {
    if i < |s| && IsWordChar(s[i]) {
      WordRunMeaning(s, i + 1);
    }
  }

  /** The reference reading of the pattern: `s` starts with `k` word characters,
      `=`, `m` word characters and `;`, with `k` in 3..4 and `m` in 1..4. */
  predicate MatchesWith(s: string, k: nat, m: nat)
  {
    && 3 <= k <= 4 && 1 <= m <= 4 && k + m + 2 <= |s|
    && (forall j :: 0 <= j < k ==> IsWordChar(s[j]))
    && s[k] == '='
    && (forall j :: k + 1 <= j < k + 1 + m ==> IsWordChar(s[j]))
    && s[k + 1 + m] == ';'
  }

  /** Length of the match at the start of `s`, if there is one: the word run, `=`,
      the word run after it, `;`. */
  function MatchAt(s: string): (r: Option<nat>)
    ensures r.Some? ==> 6 <= r.value <= |s| && s[r.value - 1] == ';'
  {
    var k := WordRun(s, 0);
    if 3 <= k <= 4 && k < |s| && s[k] == '=' then
      var m := WordRun(s, k + 1);
      if 1 <= m <= 4 && k + 1 + m < |s| && s[k + 1 + m] == ';' then Some(k + m + 2)
      else None
    else None
  }

  /** The scan agrees with the reference reading: there is a match at the start of `s`
      exactly when some name and value lengths fit the pattern there, and its length
      is theirs. */
  lemma MatchAtMeaning(s: string)
    ensures MatchAt(s).Some? <==> exists k, m :: MatchesWith(s, k, m)
    ensures forall k, m :: MatchesWith(s, k, m) ==> MatchAt(s) == Some(k + m + 2)
  {
    NoMatchUnlessRuns(s);
    if MatchAt(s).Some? {
      MatchAtFound(s);
    }
  }

  /** A match the scan reports fits the reference reading with the two word runs. */
  lemma MatchAtFound(s: string)
    requires MatchAt(s).Some?
    ensures WordRun(s, 0) < |s| && MatchesWith(s, WordRun(s, 0), WordRun(s, WordRun(s, 0) + 1))
  {
    WordRunMeaning(s, 0);
    WordRunMeaning(s, WordRun(s, 0) + 1);
  }

  /** Any match has its name and value exactly as long as the word runs there. */
  lemma NoMatchUnlessRuns(s: string)
    ensures forall k: nat, m: nat :: MatchesWith(s, k, m) ==>
      k == WordRun(s, 0) && k + 1 <= |s| && m == WordRun(s, k + 1)
  {
    WordRunMeaning(s, 0);
    forall k: nat, m: nat | MatchesWith(s, k, m)
      ensures k == WordRun(s, 0) && m == WordRun(s, k + 1)
    {
      WordRunMeaning(s, k + 1);
    }
  }

  /** Two matches at the same position agree on their name and value lengths. */
  lemma MatchLengthsForced(s: string, k: nat, m: nat)
    requires MatchesWith(s, k, m)
    ensures forall k', m' :: MatchesWith(s, k', m') ==> k' == k && m' == m
  {
    NoMatchUnlessRuns(s);
  }

  /** `len(re.FindAll(s, -1))`: the number of non-overlapping matches found
      scanning from the left. */
  function CountMatches(s: string): (r: nat)
    ensures 6 * r <= |s|
  {
    if |s| == 0 then 0
    else match MatchAt(s)
      case Some(len) => 1 + CountMatches(s[len..])
      case None => CountMatches(s[1..])
  }

  /** One `name=value;` field of a telemetry line. */
  datatype Field = Field(name: string, text: string)

  /** A field the pattern recognises: a 3- or 4-character name and a 1- to 4-character value, all word characters. */
  predicate WellFormed(f: Field)
  {
    && 3 <= |f.name| <= 4 && 1 <= |f.text| <= 4
    && (forall j :: 0 <= j < |f.name| ==> IsWordChar(f.name[j]))
    && (forall j :: 0 <= j < |f.text| ==> IsWordChar(f.text[j]))
  }

  /** A field as written on the line: `name=value;`. */
  function FieldText(f: Field): string
  {
    f.name + "=" + f.text + ";"
  }

  /** The line a device writes for a sequence of fields. */
  function Line(fs: seq<Field>): string
  {
    if |fs| == 0 then "" else FieldText(fs[0]) + Line(fs[1..])
  }

  /** A word run that starts before a non-word last character stops inside the
      string, whatever follows it. */
  lemma WordRunAppend(u: string, t: string, i: nat)
    requires i < |u| && !IsWordChar(u[|u| - 1])
    ensures WordRun(u + t, i) == WordRun(u, i)
  {
    WordRunMeaning(u, i);
    WordRunMeaning(u + t, i);
    assert forall j :: 0 <= j < |u| ==> (u + t)[j] == u[j];
  }

  /** A match never runs past a `;`, so text after a line ending in `;` does not change
      the match at its start. */
  lemma MatchAtAppend(u: string, t: string)
    requires |u| > 0 && u[|u| - 1] == ';'
    ensures MatchAt(u + t) == MatchAt(u)
  {
    var s := u + t;
    WordRunAppend(u, t, 0);
    WordRunMeaning(u, 0);
    var k := WordRun(u, 0);
    assert s[k] == u[k];
    if 3 <= k <= 4 && u[k] == '=' {
      WordRunAppend(u, t, k + 1);
      WordRunMeaning(u, k + 1);
      var m := WordRun(u, k + 1);
      assert s[k + 1 + m] == u[k + 1 + m];
    }
  }

  /** Matches in a line that ends with `;` and matches in what follows it are counted
      separately: the count of the concatenation is the sum of the counts. */
  lemma {:induction false} CountMatchesAppend(u: string, t: string)
    requires |u| == 0 || u[|u| - 1] == ';'
    ensures CountMatches(u + t) == CountMatches(u) + CountMatches(t)
    decreases |u|
  {
    if |u| > 0 {
      var s := u + t;
      MatchAtAppend(u, t);
      match MatchAt(u)
      case Some(len) =>
        assert s[len..] == u[len..] + t;
        CountMatchesAppend(u[len..], t);
      case None =>
        assert s[1..] == u[1..] + t;
        CountMatchesAppend(u[1..], t);
    } else {
      assert u + t == t;
    }
  }

  /** A well-formed field is exactly one match. */
  lemma CountField(f: Field)
    requires WellFormed(f)
    ensures CountMatches(FieldText(f)) == 1
  {
    var s := FieldText(f);
    var k := |f.name|;
    var m := |f.text|;
    assert MatchesWith(s, k, m) by {
      forall j | 0 <= j < k ensures IsWordChar(s[j]) { assert s[j] == f.name[j]; }
      forall j | k + 1 <= j < k + 1 + m ensures IsWordChar(s[j]) { assert s[j] == f.text[j - k - 1]; }
    }
    MatchAtMeaning(s);
    assert s[k + m + 2..] == "";
  }

  /** A line of well-formed fields has exactly one match per field. */
  lemma {:induction false} CountLine(fs: seq<Field>)
    requires forall i :: 0 <= i < |fs| ==> WellFormed(fs[i])
    ensures CountMatches(Line(fs)) == |fs|
  {
    if |fs| > 0 {
      CountField(fs[0]);
      CountLine(fs[1..]);
      CountMatchesAppend(FieldText(fs[0]), Line(fs[1..]));
    }
  }

  /** A line of fields is empty or ends with `;`. */
  lemma {:induction false} LineEnds(fs: seq<Field>)
    ensures |Line(fs)| == 0 || Line(fs)[|Line(fs)| - 1] == ';'
  {
    if |fs| > 0 {
      LineEnds(fs[1..]);
    }
  }

  /** The line of `a + b` is the line of `a` followed by the line of `b`. */
  lemma {:induction false} LineConcat(a: seq<Field>, b: seq<Field>)
    ensures Line(a + b) == Line(a) + Line(b)
  {
    if |a| > 0 {
      assert (a + b)[1..] == a[1..] + b;
      LineConcat(a[1..], b);
    } else {
      assert a + b == b;
    }
  }
}

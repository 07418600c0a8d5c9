/** The telemetry frame codec: `outputIsValid` (in its two variants) and `outputToMap`. */
module Frame {
  import opened Wrappers
  import opened Text
  import opened Strconv
  import opened Pattern

  /** One decoded snapshot of the device: field name to value. */
  type Frame = map<string, int>

  /** The length window of the validator. `main.go` only demands more than 168
      characters; `helpers.go` also demands fewer than 215. */
  datatype Window = Unbounded | Bounded

  const MinLength: nat := 169
  const MinMatches: nat := 28
  const Sentinel: string := "V00="

  /** The length test of each variant. */
  predicate LengthAccepted(w: Window, n: nat)
  {
    match w
    case Unbounded => n > 168
    case Bounded => n > 168 && n < 215
  }

  /** `outputIsValid(s, re)`: the length is in the window, the line starts with the
      sentinel `V00=`, ends with `;` and holds at least 28 pattern matches. */
  predicate OutputIsValid(w: Window, s: string)
    ensures OutputIsValid(w, s) ==> MinLength <= |s| && HasPrefix(s, Sentinel) && s[|s| - 1] == ';'
    ensures OutputIsValid(w, s) && w == Bounded ==> |s| < 215
  {
    LengthAccepted(w, |s|) && s[..4] == Sentinel && HasSuffix(s, ";") && CountMatches(s) >= MinMatches
  }

  /** The `;`-terminated pieces of a line: split on `;` and drop the last piece. */
  function Pieces(s: string): (r: seq<string>)
    ensures forall i :: 0 <= i < |r| ==> ';' !in r[i]
  {
    var parts := Split(s, ';');
    parts[..|parts| - 1]
  }

  /** Pieces that start with `V` carry hexadecimal values; all others decimal ones. */
  function BaseOf(piece: string): Base
  {
    if HasPrefix(piece, "V") then 16 else 10
  }

  /** One piece `name=value`: the name is the text before the first `=`, the value the
      text between the first and the second `=`. A piece without `=` or with a value
      that does not parse is an error (a panic in the source). */
  function DecodeField(piece: string): (r: Option<(string, int)>)
    ensures r.Some? ==> '=' !in r.value.0 && InInt64(r.value.1)
  {
    var parts := Split(piece, '=');
    if |parts| < 2 then None
    else
      match ParseInt(parts[1], BaseOf(piece))
      case None => None
      case Some(n) => Some((parts[0], n))
  }

  /** Every piece decoded on its own. */
  function DecodeFields(pieces: seq<string>): (r: seq<Option<(string, int)>>)
    ensures |r| == |pieces|
    ensures forall i :: 0 <= i < |pieces| ==> r[i] == DecodeField(pieces[i])
  {
    if |pieces| == 0 then [] else [DecodeField(pieces[0])] + DecodeFields(pieces[1..])
  }

  /** Inserts the decoded pieces in order, so a later piece overwrites an earlier one
      with the same name; any failing piece fails the whole frame. */
  function Collect(fields: seq<Option<(string, int)>>): Option<Frame>
  {
    if |fields| == 0 then Some(map[])
    else
      match Collect(fields[..|fields| - 1])
      case None => None
      case Some(m) =>
        match fields[|fields| - 1]
        case None => None
        case Some(kv) => Some(m[kv.0 := kv.1])
  }

  /** Every name of the frame is free of `=`, and every value is an `int64`. */
  predicate Int64Entries(m: Frame)
  {
    forall k :: k in m ==> '=' !in k && InInt64(m[k])
  }

  /** `outputToMap(s)`, with its panics as `None`. */
  function Decode(s: string): (r: Option<Frame>)
    ensures r.Some? ==> Int64Entries(r.value)
  {
    var fields := DecodeFields(Pieces(s));
    CollectedEntries(fields);
    Collect(fields)
  }

  /** Every entry of a collected map is one of the decoded fields. */
  lemma {:induction false} CollectedEntries(fields: seq<Option<(string, int)>>)
    ensures Collect(fields).Some? ==>
      forall k :: k in Collect(fields).value ==> Some((k, Collect(fields).value[k])) in fields
  {
    if |fields| > 0 {
      var init := fields[..|fields| - 1];
      CollectedEntries(init);
      assert forall x :: x in init ==> x in fields;
    }
  }

  // ----- Validation -----

  /** The `helpers.go` validator accepts exactly the lines the `main.go` validator
      accepts that are shorter than 215 characters. */
  lemma BoundedIsUnboundedBelow215(s: string)
    ensures OutputIsValid(Bounded, s) <==> OutputIsValid(Unbounded, s) && |s| < 215
    ensures OutputIsValid(Bounded, s) ==> MinLength <= |s| <= 214
  {
  }

  /** A line of at least 28 well-formed fields, the first named `V00`, whose length
      is in the window, passes the validator. */
  lemma {:induction false} FieldLineIsValid(w: Window, fs: seq<Field>)
    requires |fs| >= MinMatches && fs[0].name == "V00"
    requires forall i :: 0 <= i < |fs| ==> WellFormed(fs[i])
    requires LengthAccepted(w, |Line(fs)|)
    ensures OutputIsValid(w, Line(fs))
  {
    var s := Line(fs);
    var head := FieldText(fs[0]);
    CountLine(fs);
    LineEnds(fs);
    assert s == head + Line(fs[1..]);
    assert head[..4] == Sentinel;
    assert s[..4] == head[..4];
    assert s[|s| - 1..] == ";";
  }

  /** A line of fewer than 28 well-formed fields is rejected whatever its length. */
  lemma TooFewFieldsRejected(w: Window, fs: seq<Field>)
    requires |fs| < MinMatches
    requires forall i :: 0 <= i < |fs| ==> WellFormed(fs[i])
    ensures !OutputIsValid(w, Line(fs))
  {
    CountLine(fs);
  }

  /** The `main.go` validator has no upper bound: appending well-formed fields to an
      accepted line gives an accepted line. */
  lemma {:induction false} UnboundedAcceptsLongerLines(s: string, fs: seq<Field>)
    requires OutputIsValid(Unbounded, s)
    requires forall i :: 0 <= i < |fs| ==> WellFormed(fs[i])
    ensures OutputIsValid(Unbounded, s + Line(fs))
  {
    CountMatchesAppend(s, Line(fs));
    LineEnds(fs);
    var t := s + Line(fs);
    assert t[..4] == s[..4];
    if |fs| > 0 {
      assert t[|t| - 1] == Line(fs)[|Line(fs)| - 1];
    } else {
      assert t == s;
    }
  }

  /** `n` copies of one field. */
  function Repeat(f: Field, n: nat): (r: seq<Field>)
    ensures |r| == n && forall i :: 0 <= i < n ==> r[i] == f
  {
    if n == 0 then [] else [f] + Repeat(f, n - 1)
  }

  /** Repeated fields make a line `n` times as long as one field. */
  lemma {:induction false} RepeatLength(f: Field, n: nat)
    ensures |Line(Repeat(f, n))| == n * |FieldText(f)|
  {
    if n > 0 {
      RepeatLength(f, n - 1);
      assert Repeat(f, n)[1..] == Repeat(f, n - 1);
    }
  }

  /** The 276-character line `V00=0;` followed by 27 copies of `PUMP=1000;`. */
  function LongLine(): string
  {
    Line([Field("V00", "0")] + Repeat(Field("PUMP", "1000"), 27))
  }

  /** The two validators disagree: a 276-character line of 28 well-formed fields is
      accepted by the `main.go` variant and rejected by the `helpers.go` variant. */
  lemma ValidatorsDisagree()
    ensures OutputIsValid(Unbounded, LongLine()) && !OutputIsValid(Bounded, LongLine())
  {
    var fs := [Field("V00", "0")] + Repeat(Field("PUMP", "1000"), 27);
    RepeatLength(Field("PUMP", "1000"), 27);
    assert fs[1..] == Repeat(Field("PUMP", "1000"), 27);
    assert |Line(fs)| == 276;
    FieldLineIsValid(Unbounded, fs);
  }

  // ----- Decoding -----

  /** The pieces of a line of fields are the fields' `name=value` texts. */
  lemma {:induction false} PiecesOfLine(fs: seq<Field>)
    requires forall i :: 0 <= i < |fs| ==> ';' !in fs[i].name && ';' !in fs[i].text
    ensures Split(Line(fs), ';') == PieceTexts(fs) + [""]
    ensures Pieces(Line(fs)) == PieceTexts(fs)
  {
    if |fs| > 0 {
      var p := fs[0].name + "=" + fs[0].text;
      assert ';' !in p;
      PiecesOfLine(fs[1..]);
      assert Line(fs) == p + [';'] + Line(fs[1..]);
      SplitAppend(p, ';', Line(fs[1..]));
      SplitWithoutSeparator(p, ';');
    }
  }

  /** The `name=value` text of each field. */
  function PieceTexts(fs: seq<Field>): (r: seq<string>)
    ensures |r| == |fs|
    ensures forall i :: 0 <= i < |fs| ==> r[i] == fs[i].name + "=" + fs[i].text
  {
    if |fs| == 0 then [] else [fs[0].name + "=" + fs[0].text] + PieceTexts(fs[1..])
  }

  /** `outputToMap` ignores whatever follows the last `;`. */
  lemma DecodeIgnoresTail(s: string, t: string)
    requires |s| == 0 || s[|s| - 1] == ';'
    requires ';' !in t
    ensures Pieces(s + t) == Pieces(s)
    ensures Decode(s + t) == Decode(s)
  {
    SplitWithoutSeparator(t, ';');
    if |s| == 0 {
      assert s + t == t;
    } else {
      var x := s[..|s| - 1];
      assert s == x + [';'] + "";
      assert s + t == x + [';'] + t;
      SplitAppend(x, ';', t);
      SplitAppend(x, ';', "");
    }
  }

  /** Collecting fails exactly when some piece failed. */
  lemma {:induction false} CollectFailsClosed(fields: seq<Option<(string, int)>>)
    ensures Collect(fields).None? <==> exists i :: 0 <= i < |fields| && fields[i].None?
  {
    if |fields| > 0 {
      var init := fields[..|fields| - 1];
      CollectFailsClosed(init);
      assert forall i :: 0 <= i < |init| ==> init[i] == fields[i];
    }
  }

  /** `outputToMap` fails exactly when one of the `;`-terminated pieces has no `=` or
      a value that does not parse: no partial frame is ever returned. */
  lemma DecodeFailsClosed(s: string)
    ensures Decode(s).None? <==> exists i :: 0 <= i < |Pieces(s)| && DecodeField(Pieces(s)[i]).None?
  {
    CollectFailsClosed(DecodeFields(Pieces(s)));
  }

  /** A line whose `i`-th field does not decode does not decode. */
  lemma FieldFailureFailsLine(fs: seq<Field>, i: nat)
    requires forall j :: 0 <= j < |fs| ==> ';' !in fs[j].name && ';' !in fs[j].text
    requires i < |fs| && DecodeField(fs[i].name + "=" + fs[i].text).None?
    ensures Decode(Line(fs)) == None
  {
    PiecesOfLine(fs);
    PieceFailureFailsLine(Line(fs), i);
  }

  /** A line whose `i`-th piece does not decode does not decode. */
  lemma PieceFailureFailsLine(s: string, i: nat)
    requires i < |Pieces(s)| && DecodeField(Pieces(s)[i]).None?
    ensures Decode(s) == None
  {
    DecodeFailsClosed(s);
  }

  /** Field `i` carries name `k`, and no later field carries that name. */
  predicate LastWith(fields: seq<Option<(string, int)>>, k: string, i: int)
  {
    && 0 <= i < |fields|
    && fields[i].Some? && fields[i].value.0 == k
    && forall j :: i < j < |fields| ==> fields[j].None? || fields[j].value.0 != k
  }

  /** The collected frame holds every field's name, each bound to the value of the
      last field with that name, and no other names. */
  lemma {:induction false} CollectLastWins(fields: seq<Option<(string, int)>>, m: Frame)
    requires Collect(fields) == Some(m)
    ensures forall i :: 0 <= i < |fields| ==> fields[i].Some? && fields[i].value.0 in m
    ensures forall k :: k in m ==> exists i :: LastWith(fields, k, i) && m[k] == fields[i].value.1
  {
    if |fields| > 0 {
      var n := |fields| - 1;
      var init := fields[..n];
      var m0 := Collect(init).value;
      var kv := fields[n].value;
      assert m == m0[kv.0 := kv.1];
      CollectLastWins(init, m0);
      forall i | 0 <= i < |fields|
        ensures fields[i].Some? && fields[i].value.0 in m
      {
        if i < n { assert init[i] == fields[i]; }
      }
      forall k | k in m
        ensures exists i :: LastWith(fields, k, i) && m[k] == fields[i].value.1
      {
        if k == kv.0 {
          assert LastWith(fields, k, n);
        } else {
          var i :| LastWith(init, k, i) && m0[k] == init[i].value.1;
          assert forall j :: 0 <= j < n ==> init[j] == fields[j];
          assert LastWith(fields, k, i);
        }
      }
    }
  }

  /** `outputToMap` binds each piece's name, later pieces overwriting earlier ones. */
  lemma DecodeLastWins(s: string, m: Frame)
    requires Decode(s) == Some(m)
    ensures forall i :: 0 <= i < |Pieces(s)| ==> DecodeField(Pieces(s)[i]).Some? && DecodeField(Pieces(s)[i]).value.0 in m
    ensures forall k :: k in m ==> exists i :: LastWith(DecodeFields(Pieces(s)), k, i) && m[k] == DecodeField(Pieces(s)[i]).value.1
  {
    CollectLastWins(DecodeFields(Pieces(s)), m);
  }

  /** A piece `name=value` decodes to the name and the value read in the base its
      name's first letter selects. */
  lemma DecodeFieldOf(name: string, value: string)
    requires |name| > 0 && '=' !in name && '=' !in value
    ensures DecodeField(name + "=" + value) ==
      match ParseInt(value, BaseOf(name))
      case None => None
      case Some(n) => Some((name, n))
  {
    SplitFieldText(name, value);
    assert (name + "=" + value)[..1] == name[..1];
  }

  /** A `V` piece is read as hexadecimal: `V00=ff` is 255. */
  lemma HexForVPieces()
    ensures DecodeField("V00=ff") == Some(("V00", 255))
  {
    assert "V00" + "=" + "ff" == "V00=ff";
    DecodeFieldOf("V00", "ff");
    BaseOfName("V00");
    ParseExamples();
  }

  /** Other pieces are decimal: `T01=12` is 12. */
  lemma DecimalForOtherPieces()
    ensures DecodeField("T01=12") == Some(("T01", 12))
  {
    assert "T01" + "=" + "12" == "T01=12";
    DecodeFieldOf("T01", "12");
    BaseOfName("T01");
    ParseExamples();
  }

  /** A hexadecimal value on a non-`V` piece fails: `T01=ff`. */
  lemma HexOnDecimalPieceFails()
    ensures DecodeField("T01=ff") == None
  {
    assert "T01" + "=" + "ff" == "T01=ff";
    DecodeFieldOf("T01", "ff");
    BaseOfName("T01");
    ParseExamples();
  }

  /** The base of a piece is chosen by the first letter of its name. */
  lemma BaseOfName(name: string)
    requires |name| > 0
    ensures BaseOf(name) == if name[0] == 'V' then 16 else 10
  {
  }

  /** The four two-digit parses the decoding examples rely on. */
  lemma ParseExamples()
    ensures ParseInt("ff", 16) == Some(255)
    ensures ParseInt("12", 10) == Some(12)
    ensures ParseInt("ff", 10) == None
    ensures ParseInt("zz", 16) == None
  {
    assert "ff"[..1] == "f" && "f"[..0] == "";
    assert "12"[..1] == "1" && "1"[..0] == "";
  }

  /** A piece without `=` has no value to index, so it fails. */
  lemma PieceWithoutValueFails(piece: string)
    requires '=' !in piece
    ensures DecodeField(piece) == None
  {
    SplitWithoutSeparator(piece, '=');
  }

  /** Splitting `name=value` on `=` gives the name and the value back. */
  lemma SplitFieldText(name: string, value: string)
    requires '=' !in name && '=' !in value
    ensures Split(name + "=" + value, '=') == [name, value]
  {
    SplitAppend(name, '=', value);
    SplitWithoutSeparator(name, '=');
    SplitWithoutSeparator(value, '=');
  }

  /** The field a device writes for `name` and `n`: hexadecimal for `V` names. */
  function Encoded(name: string, n: int): Field
  {
    Field(name, FormatInt(n, BaseOf(name)))
  }

  /** A name the codec can carry: non-empty, without `=` or `;`. */
  predicate PlainName(name: string)
  {
    |name| > 0 && '=' !in name && ';' !in name
  }

  /** Decoding a written field gives its name and number back. */
  lemma DecodeFieldRoundTrip(name: string, n: int)
    requires PlainName(name) && InInt64(n)
    ensures DecodeField(name + "=" + FormatInt(n, BaseOf(name))) == Some((name, n))
  {
    var piece := name + "=" + FormatInt(n, BaseOf(name));
    FormatIntCharacters(n, BaseOf(name));
    SplitFieldText(name, FormatInt(n, BaseOf(name)));
    ParseFormat(n, BaseOf(name));
    assert piece[..1] == name[..1];
  }

  /** The frame a sequence of (name, value) entries describes: later entries win. */
  function ToFrame(entries: seq<(string, int)>): Frame
  {
    if |entries| == 0 then map[]
    else ToFrame(entries[..|entries| - 1])[entries[|entries| - 1].0 := entries[|entries| - 1].1]
  }

  /** The line a device writes for a sequence of entries. */
  function Render(entries: seq<(string, int)>): string
  {
    Line(EncodedFields(entries))
  }

  /** Each entry written as a field. */
  function EncodedFields(entries: seq<(string, int)>): (fs: seq<Field>)
    ensures |fs| == |entries|
    ensures forall i :: 0 <= i < |entries| ==> fs[i] == Encoded(entries[i].0, entries[i].1)
  {
    if |entries| == 0 then [] else [Encoded(entries[0].0, entries[0].1)] + EncodedFields(entries[1..])
  }

  /** Entries the device can write: plain names and `int64` values. */
  predicate Writable(entries: seq<(string, int)>)
  {
    forall i :: 0 <= i < |entries| ==> PlainName(entries[i].0) && InInt64(entries[i].1)
  }

  /** Decoding what the device writes gives back the frame of the entries. */
  lemma RenderRoundTrip(entries: seq<(string, int)>)
    requires Writable(entries)
    ensures Decode(Render(entries)) == Some(ToFrame(entries))
  {
    var fs := EncodedFields(entries);
    forall i | 0 <= i < |fs| ensures ';' !in fs[i].name && ';' !in fs[i].text {
      FormatIntCharacters(entries[i].1, BaseOf(entries[i].0));
    }
    PiecesOfLine(fs);
    forall i | 0 <= i < |entries|
      ensures DecodeField(PieceTexts(fs)[i]) == Some(entries[i])
    {
      DecodeFieldRoundTrip(entries[i].0, entries[i].1);
    }
    CollectEntries(DecodeFields(PieceTexts(fs)), entries);
  }

  /** Collecting the decoded entries in order builds their frame. */
  lemma {:induction false} CollectEntries(fields: seq<Option<(string, int)>>, entries: seq<(string, int)>)
    requires |fields| == |entries|
    requires forall i :: 0 <= i < |entries| ==> fields[i] == Some(entries[i])
    ensures Collect(fields) == Some(ToFrame(entries))
  {
    if |fields| > 0 {
      var n := |fields| - 1;
      CollectEntries(fields[..n], entries[..n]);
    }
  }
}

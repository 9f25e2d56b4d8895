/** The CSV output writer: fields are quoted only when they must be,
    the header and every row are built in a work buffer and reach the
    output stream only when complete. */
module CsvOutputWriter {
  import opened Util

  const COMMA: char := ','
  const QUOTE: char := '"'
  const RECORD_END: char := '\n'

  /** A character that forces the field into quotes. */
  predicate Special(c: char, separator: char, escape: char) {
    c == separator || c == QUOTE || c == RECORD_END || c == escape
  }

  predicate NeedsQuotes(f: string, separator: char, escape: char) {
    exists i :: 0 <= i < |f| && Special(f[i], separator, escape)
  }

  /** A character inside quotes: quotes and escapes get an escape before. */
  function EscapeChar(c: char, escape: char): string {
    if c == QUOTE || c == escape then [escape, c] else [c]
  }

  function EscapeBody(f: string, escape: char): string {
    if f == [] then [] else EscapeChar(f[0], escape) + EscapeBody(f[1..], escape)
  }

  /** How one field is written. */
  function FieldText(f: string, separator: char, escape: char): string {
    if NeedsQuotes(f, separator, escape) then [QUOTE] + EscapeBody(f, escape) + [QUOTE] else f
  }

  /** The fields joined by the separator. */
  function Join(fs: seq<string>, separator: char, escape: char): string
    requires |fs| >= 1
  {
    if |fs| == 1 then FieldText(fs[0], separator, escape)
    else FieldText(fs[0], separator, escape) + [separator] + Join(fs[1..], separator, escape)
  }

  /** A whole record: the joined fields and the record end. */
  function RecordText(fs: seq<string>, separator: char, escape: char): string
    requires |fs| >= 1
  {
    Join(fs, separator, escape) + [RECORD_END]
  }

  function CountSpecial(f: string, escape: char): nat {
    if f == [] then 0 else (if f[0] == QUOTE || f[0] == escape then 1 else 0) + CountSpecial(f[1..], escape)
  }

  lemma {:induction false} EscapeBodyLength(f: string, escape: char)
    ensures |EscapeBody(f, escape)| == |f| + CountSpecial(f, escape)
  {
    if f != [] {
      EscapeBodyLength(f[1..], escape);
    }
  }

  /** A field is quoted iff it holds a separator, quote, record end or
      escape; a quoted field grows by its quotes and one escape for each
      quote or escape inside, any other is written as it is. */
  lemma FieldTextShape(f: string, separator: char, escape: char)
    ensures NeedsQuotes(f, separator, escape) ==>
      FieldText(f, separator, escape)[0] == QUOTE &&
      |FieldText(f, separator, escape)| == |f| + 2 + CountSpecial(f, escape)
    ensures !NeedsQuotes(f, separator, escape) ==> FieldText(f, separator, escape) == f
    ensures (|FieldText(f, separator, escape)| > 0 && FieldText(f, separator, escape)[0] == QUOTE)
      <==> NeedsQuotes(f, separator, escape)
  {
    EscapeBodyLength(f, escape);
    if !NeedsQuotes(f, separator, escape) && |f| > 0 {
      assert !Special(f[0], separator, escape);
    }
  }

  lemma {:induction false} EscapeBodySnoc(f: string, c: char, escape: char)
    ensures EscapeBody(f + [c], escape) == EscapeBody(f, escape) + EscapeChar(c, escape)
  {
    if f == [] {
      assert [c][1..] == [];
    } else {
      assert (f + [c])[1..] == f[1..] + [c];
      EscapeBodySnoc(f[1..], c, escape);
      Assoc(EscapeChar(f[0], escape), EscapeBody(f[1..], escape), EscapeChar(c, escape));
    }
  }

  /** One more character of the field escaped. */
  lemma EscapedStep(start: string, field: string, k: nat, escape: char)
    requires k < |field|
    ensures start + EscapeBody(field[..k], escape) + EscapeChar(field[k], escape) ==
            start + EscapeBody(field[..k + 1], escape)
  {
    assert field[..k + 1] == field[..k] + [field[k]];
    EscapeBodySnoc(field[..k], field[k], escape);
    Assoc(start, EscapeBody(field[..k], escape), EscapeChar(field[k], escape));
  }

  lemma {:induction false} JoinSnoc(fs: seq<string>, f: string, separator: char, escape: char)
    requires |fs| >= 1
    ensures Join(fs + [f], separator, escape) == Join(fs, separator, escape) + [separator] + FieldText(f, separator, escape)
  {
    if |fs| == 1 {
      assert (fs + [f])[1..] == [f];
    } else {
      assert (fs + [f])[1..] == fs[1..] + [f];
      JoinSnoc(fs[1..], f, separator, escape);
      var h := FieldText(fs[0], separator, escape) + [separator];
      Assoc(h, Join(fs[1..], separator, escape), [separator] + FieldText(f, separator, escape));
      Assoc(h + Join(fs[1..], separator, escape), [separator], FieldText(f, separator, escape));
    }
  }

  // ---------------------------------------------------------------------
  // Field names.

  /** The given names, then each extra name not already present. */
  function MergeNames(given: seq<string>, extras: seq<string>): seq<string> {
    if extras == [] then given
    else
      var m := MergeNames(given, extras[..|extras| - 1]);
      if extras[|extras| - 1] in m then m else m + [extras[|extras| - 1]]
  }

  /** The merged list is the given names followed by distinct extras, none
      of them among the given names, and it holds every name offered. */
  lemma {:induction false} MergeNamesCorrect(given: seq<string>, extras: seq<string>)
    ensures |MergeNames(given, extras)| >= |given|
    ensures MergeNames(given, extras)[..|given|] == given
    ensures Distinct(MergeNames(given, extras)[|given|..])
    ensures forall x :: x in MergeNames(given, extras)[|given|..] ==> x !in given
    ensures Elems(MergeNames(given, extras)) == Elems(given) + Elems(extras)
  {
    if extras != [] {
      var init := extras[..|extras| - 1];
      var e := extras[|extras| - 1];
      MergeNamesCorrect(given, init);
      var m := MergeNames(given, init);
      assert extras == init + [e];
      ElemsConcat(init, [e]);
      if e !in m {
        ElemsConcat(m, [e]);
        assert (m + [e])[|given|..] == m[|given|..] + [e];
        assert (m + [e])[..|given|] == m[..|given|];
        assert forall x :: x in m[|given|..] ==> x in m;
      }
    }
  }

  // ---------------------------------------------------------------------
  // Row values.

  /** A field's value: the override map first, then the data map. */
  function Lookup(name: string, data: map<string, string>, overrides: map<string, string>): Option<string> {
    if name in overrides then Some(overrides[name])
    else if name in data then Some(data[name])
    else None
  }

  predicate AllFound(names: seq<string>, data: map<string, string>, overrides: map<string, string>) {
    forall k :: 0 <= k < |names| ==> Lookup(names[k], data, overrides).Some?
  }

  function Values(names: seq<string>, data: map<string, string>, overrides: map<string, string>): (r: seq<string>)
    requires AllFound(names, data, overrides)
    ensures |r| == |names|
    ensures forall k :: 0 <= k < |names| ==> Some(r[k]) == Lookup(names[k], data, overrides)
  {
    seq(|names|, k requires 0 <= k < |names| => Lookup(names[k], data, overrides).value)
  }

  /** Override values win over data values, field by field. */
  lemma OverridesWin(names: seq<string>, data: map<string, string>, overrides: map<string, string>, k: nat)
    requires AllFound(names, data, overrides) && k < |names|
    ensures names[k] in overrides ==> Values(names, data, overrides)[k] == overrides[names[k]]
    ensures names[k] !in overrides ==> names[k] in data && Values(names, data, overrides)[k] == data[names[k]]
  {
  }

  // ---------------------------------------------------------------------
  // The writer.

  /** What the constructor checks (and only logs when it fails). */
  predicate SeparatorParsable(separator: char, escape: char) {
    separator != QUOTE && separator != escape && separator != RECORD_END
  }

  class CsvWriter {
    var output: string
    var fieldNames: seq<string>
    var workRecord: string
    const outputHeader: bool
    const escape: char
    const separator: char

    constructor (header: bool, escapeChar: char, separatorChar: char)
      ensures output == [] && fieldNames == [] && workRecord == []
      ensures outputHeader == header && escape == escapeChar && separator == separatorChar
    {
      output := [];
      fieldNames := [];
      workRecord := [];
      outputHeader := header;
      escape := escapeChar;
      separator := separatorChar;
    }

    /** The first pass of appendField: does the field need quotes? */
    method ScanField(field: string) returns (needOuterQuotes: bool)
      ensures needOuterQuotes <==> NeedsQuotes(field, separator, escape)
    {
      needOuterQuotes := false;
      var i := 0;
      while i < |field|
        invariant 0 <= i <= |field|
        invariant !needOuterQuotes ==> forall j :: 0 <= j < i ==> !Special(field[j], separator, escape)
        invariant needOuterQuotes ==> NeedsQuotes(field, separator, escape)
      {
        var c := field[i];
        if c == separator || c == QUOTE || c == RECORD_END || c == escape {
          needOuterQuotes := true;
          break;
        }
        i := i + 1;
      }
    }

    method AppendField(field: string)
      modifies this
      ensures workRecord == old(workRecord) + FieldText(field, separator, escape)
      ensures output == old(output) && fieldNames == old(fieldNames)
    {
      var needOuterQuotes := ScanField(field);
      if needOuterQuotes {
        workRecord := workRecord + [QUOTE];
        AppendEscaped(field);
        workRecord := workRecord + [QUOTE];
        Assoc(old(workRecord), [QUOTE], EscapeBody(field, escape));
        Assoc(old(workRecord), [QUOTE] + EscapeBody(field, escape), [QUOTE]);
      } else {
        workRecord := workRecord + field;
      }
    }

    /** The quoted field's body: each quote and escape character preceded
        by the escape character. */
    method AppendEscaped(field: string)
      modifies this
      ensures workRecord == old(workRecord) + EscapeBody(field, escape)
      ensures output == old(output) && fieldNames == old(fieldNames)
    {
      ghost var start := workRecord;
      for k := 0 to |field|
        invariant workRecord == start + EscapeBody(field[..k], escape)
        invariant output == old(output) && fieldNames == old(fieldNames)
      {
        var c := field[k];
        ghost var before := workRecord;
        if c == QUOTE || c == escape {
          workRecord := workRecord + [escape];
        }
        workRecord := workRecord + [c];
        assert workRecord == before + EscapeChar(c, escape);
        EscapedStep(start, field, k, escape);
      }
      assert field[..|field|] == field;
    }

    /** Appends the fields joined by the separator. */
    method AppendFields(fs: seq<string>)
      requires |fs| >= 1
      modifies this
      ensures workRecord == old(workRecord) + Join(fs, separator, escape)
      ensures output == old(output) && fieldNames == old(fieldNames)
    {
      ghost var start := workRecord;
      AppendField(fs[0]);
      var i := 1;
      while i < |fs|
        invariant 1 <= i <= |fs| && output == old(output) && fieldNames == old(fieldNames)
        invariant workRecord == start + Join(fs[..i], separator, escape)
      {
        workRecord := workRecord + [separator];
        AppendField(fs[i]);
        JoinSnoc(fs[..i], fs[i], separator, escape);
        assert fs[..i + 1] == fs[..i] + [fs[i]];
        i := i + 1;
      }
      assert fs[..|fs|] == fs;
    }

    /** fieldNames: merges the names, refuses an empty list, builds the
        header and writes it if headers are wanted. */
    method SetFieldNames(given: seq<string>, extras: seq<string>) returns (ok: bool)
      modifies this
      ensures fieldNames == MergeNames(given, extras)
      ensures ok <==> |fieldNames| > 0
      ensures !ok ==> output == old(output) && workRecord == old(workRecord)
      ensures ok ==> workRecord == RecordText(fieldNames, separator, escape)
      ensures ok ==> output == old(output) + (if outputHeader then RecordText(fieldNames, separator, escape) else [])
    {
      fieldNames := given;
      for i := 0 to |extras|
        invariant fieldNames == MergeNames(given, extras[..i])
        invariant output == old(output) && workRecord == old(workRecord)
      {
        assert extras[..i + 1][..i] == extras[..i];
        if !(extras[i] in fieldNames) {
          fieldNames := fieldNames + [extras[i]];
        }
      }
      assert extras[..|extras|] == extras;
      if |fieldNames| == 0 {
        return false;
      }
      workRecord := [];
      AppendFields(fieldNames);
      workRecord := workRecord + [RECORD_END];
      assert workRecord == RecordText(fieldNames, separator, escape);
      if outputHeader {
        output := output + workRecord;
      }
      return true;
    }

    /** writeRow: one record of the fields' values, overrides first; with
        no field names, or a value missing, nothing is written. */
    method WriteRow(data: map<string, string>, overrides: map<string, string>) returns (ok: bool)
      modifies this
      ensures fieldNames == old(fieldNames)
      ensures ok <==> |fieldNames| > 0 && AllFound(fieldNames, data, overrides)
      ensures !ok ==> output == old(output)
      ensures ok ==> workRecord == RecordText(Values(fieldNames, data, overrides), separator, escape)
      ensures ok ==> output == old(output) + RecordText(Values(fieldNames, data, overrides), separator, escape)
    {
      if |fieldNames| == 0 {
        return false;
      }
      workRecord := [];
      var vals: seq<string> := [];
      var i := 0;
      while i < |fieldNames|
        invariant 0 <= i <= |fieldNames| && |vals| == i && output == old(output) && fieldNames == old(fieldNames)
        invariant forall k :: 0 <= k < i ==> Some(vals[k]) == Lookup(fieldNames[k], data, overrides)
        invariant i == 0 ==> workRecord == []
        invariant i > 0 ==> workRecord == Join(vals, separator, escape)
      {
        if i > 0 {
          workRecord := workRecord + [separator];
        }
        var value: string;
        if fieldNames[i] in overrides {
          value := overrides[fieldNames[i]];
        } else if fieldNames[i] in data {
          value := data[fieldNames[i]];
        } else {
          return false;
        }
        AppendField(value);
        if i > 0 {
          JoinSnoc(vals, value, separator, escape);
        }
        vals := vals + [value];
        i := i + 1;
      }
      assert vals == Values(fieldNames, data, overrides);
      workRecord := workRecord + [RECORD_END];
      output := output + workRecord;
      return true;
    }
  }

  // ---------------------------------------------------------------------
  // Reading a record back.

  /** An unquoted field runs up to the next separator. */
  function Unquoted(s: string, separator: char): (r: (string, string))
    ensures |r.1| <= |s|
  {
    if s == [] || s[0] == separator then ([], s)
    else
      var rest := Unquoted(s[1..], separator);
      ([s[0]] + rest.0, rest.1)
  }

  /** The inside of a quoted field, up to its closing quote. */
  function QuotedBody(s: string, escape: char): (r: (string, string))
    ensures |r.1| <= |s|
  {
    if |s| >= 2 && s[0] == escape && (s[1] == QUOTE || s[1] == escape) then
      var rest := QuotedBody(s[2..], escape);
      ([s[1]] + rest.0, rest.1)
    else if |s| >= 1 && s[0] == QUOTE then ([], s[1..])
    else if |s| >= 1 then
      var rest := QuotedBody(s[1..], escape);
      ([s[0]] + rest.0, rest.1)
    else ([], [])
  }

  function ParseField(s: string, separator: char, escape: char): (r: (string, string))
    ensures |r.1| <= |s|
  {
    if |s| > 0 && s[0] == QUOTE then QuotedBody(s[1..], escape) else Unquoted(s, separator)
  }

  function ParseFields(s: string, separator: char, escape: char): (r: seq<string>)
    ensures |r| >= 1
    decreases |s|
  {
    var (f, rest) := ParseField(s, separator, escape);
    if |rest| > 0 && rest[0] == separator then [f] + ParseFields(rest[1..], separator, escape) else [f]
  }

  predicate FieldEnd(rest: string, separator: char) {
    rest == [] || rest[0] == separator
  }

  lemma {:induction false} UnquotedRoundTrip(f: string, rest: string, separator: char, escape: char)
    requires !NeedsQuotes(f, separator, escape) && FieldEnd(rest, separator)
    ensures Unquoted(f + rest, separator) == (f, rest)
  {
    if f != [] {
      assert !Special(f[0], separator, escape);
      assert !NeedsQuotes(f[1..], separator, escape) by {
        forall i | 0 <= i < |f[1..]| ensures !Special(f[1..][i], separator, escape) {
          assert f[1..][i] == f[i + 1];
        }
      }
      assert (f + rest)[0] == f[0] && (f + rest)[1..] == f[1..] + rest;
      assert [f[0]] + f[1..] == f;
      UnquotedRoundTrip(f[1..], rest, separator, escape);
    } else {
      assert f + rest == rest;
    }
  }

  lemma {:induction false} QuotedRoundTrip(f: string, rest: string, separator: char, escape: char)
    requires SeparatorParsable(separator, escape) && FieldEnd(rest, separator)
    ensures QuotedBody(EscapeBody(f, escape) + [QUOTE] + rest, escape) == (f, rest)
  {
    var s := EscapeBody(f, escape) + [QUOTE] + rest;
    if f == [] {
      assert s == [QUOTE] + rest;
      assert s[1..] == rest;
    } else {
      var c := f[0];
      var tail := EscapeBody(f[1..], escape) + [QUOTE] + rest;
      assert s == EscapeChar(c, escape) + tail by {
        Assoc(EscapeChar(c, escape), EscapeBody(f[1..], escape), [QUOTE]);
        Assoc(EscapeChar(c, escape), EscapeBody(f[1..], escape) + [QUOTE], rest);
      }
      QuotedRoundTrip(f[1..], rest, separator, escape);
      assert [c] + f[1..] == f;
      if c == QUOTE || c == escape {
        assert s[0] == escape && s[1] == c && s[2..] == tail;
      } else {
        assert s[0] == c && s[1..] == tail;
      }
    }
  }

  lemma FieldRoundTrip(f: string, rest: string, separator: char, escape: char)
    requires SeparatorParsable(separator, escape) && FieldEnd(rest, separator)
    ensures ParseField(FieldText(f, separator, escape) + rest, separator, escape) == (f, rest)
  {
    if NeedsQuotes(f, separator, escape) {
      var s := [QUOTE] + EscapeBody(f, escape) + [QUOTE] + rest;
      assert s[1..] == EscapeBody(f, escape) + [QUOTE] + rest;
      QuotedRoundTrip(f, rest, separator, escape);
    } else {
      if |f| > 0 {
        assert !Special(f[0], separator, escape);
      }
      UnquotedRoundTrip(f, rest, separator, escape);
    }
  }

  /** With a separator that passes the constructor's check, the joined
      fields read back as exactly those fields. */
  lemma {:induction false} JoinRoundTrip(fs: seq<string>, separator: char, escape: char)
    requires |fs| >= 1 && SeparatorParsable(separator, escape)
    ensures ParseFields(Join(fs, separator, escape), separator, escape) == fs
  {
    if |fs| == 1 {
      FieldRoundTrip(fs[0], [], separator, escape);
      assert FieldText(fs[0], separator, escape) + [] == FieldText(fs[0], separator, escape);
    } else {
      var rest := [separator] + Join(fs[1..], separator, escape);
      Assoc(FieldText(fs[0], separator, escape), [separator], Join(fs[1..], separator, escape));
      FieldRoundTrip(fs[0], rest, separator, escape);
      assert rest[1..] == Join(fs[1..], separator, escape);
      JoinRoundTrip(fs[1..], separator, escape);
    }
  }

  /** A record line without its record end reads back as its fields. */
  lemma RecordRoundTrip(fs: seq<string>, separator: char, escape: char)
    requires |fs| >= 1 && SeparatorParsable(separator, escape)
    ensures var line := RecordText(fs, separator, escape);
      line[|line| - 1] == RECORD_END && ParseFields(line[..|line| - 1], separator, escape) == fs
  {
    var line := RecordText(fs, separator, escape);
    assert line[..|line| - 1] == Join(fs, separator, escape);
    JoinRoundTrip(fs, separator, escape);
  }
}

/** The line codec of the shared notification file (src/IPC.ts and
    dist/esm/IPC.js, which agree on it): a record is a list of strings; each
    field is UTF-8 encoded, then base64 encoded, and the fields are joined
    with the separator `_n_::_n_`. A file is such lines joined with `\n`. */
module Codec {
  import opened Wrappers
  import opened Text
  import Utf8
  import Base64

  const Separator: string := "_n_::_n_"

  /** `Buffer.from(v).toString("base64")`. */
  function EncodeField(f: string): (t: string)
    ensures forall i :: 0 <= i < |t| ==> Base64.IsAlphabetChar(t[i]) || t[i] == '='
    ensures f != "" ==> t != ""
  {
    Base64.Encode(Utf8.Encode(f))
  }

  /** `Buffer.from(v, "base64").toString("utf-8")`. */
  function DecodeField(t: string): string {
    Utf8.Decode(Base64.Decode(t))
  }

  /** Every field reads back as itself. */
  lemma DecodeEncodeField(f: string)
    ensures DecodeField(EncodeField(f)) == f
  {
    Base64.DecodeEncode(Utf8.Encode(f));
    Utf8.DecodeEncode(f);
  }

  function EncodeFields(record: seq<string>): (r: seq<string>)
    ensures |r| == |record|
    ensures forall i :: 0 <= i < |r| ==> r[i] == EncodeField(record[i])
  {
    seq(|record|, i requires 0 <= i < |record| => EncodeField(record[i]))
  }

  function DecodeFields(parts: seq<string>): (r: seq<string>)
    ensures |r| == |parts|
    ensures forall i :: 0 <= i < |r| ==> r[i] == DecodeField(parts[i])
  {
    seq(|parts|, i requires 0 <= i < |parts| => DecodeField(parts[i]))
  }

  /** `prepareLine`: one text line for a record. */
  function PrepareLine(record: seq<string>): string {
    Join(EncodeFields(record), Separator)
  }

  /** `readLine`: the fields of a line; there is always at least one. */
  function ReadLine(line: string): (record: seq<string>)
    ensures |record| >= 1
    ensures |record| == |Split(line, Separator)|
  {
    DecodeFields(Split(line, Separator))
  }

  /** A record with at least one field reads back exactly: base64 output
      never contains `_`, the separator's first character. */
  lemma ReadPrepare(record: seq<string>)
    requires |record| >= 1
    ensures ReadLine(PrepareLine(record)) == record
  {
    var e := EncodeFields(record);
    forall i | 0 <= i < |e| ensures Separator[0] !in e[i] {
      assert !Base64.IsAlphabetChar('_');
    }
    SplitJoin(e, Separator);
    forall i | 0 <= i < |record| ensures DecodeField(e[i]) == record[i] {
      DecodeEncodeField(record[i]);
    }
  }

  /** The empty record is the empty line, which reads back as one empty
      field: the round trip does not hold for it. */
  lemma EmptyRecordReadsAsOneEmptyField()
    ensures PrepareLine([]) == ""
    ensures ReadLine(PrepareLine([])) == [""]
  {
    assert IndexOf("", Separator, 0) == None;
    assert Split("", Separator) == [""];
    assert DecodeField("") == "" by {
      assert Base64.Decode("") == [];
    }
  }

  // ---------------------------------------------------------------------------
  // Files

  /** `line.trim() !== ""`. */
  predicate NotBlank(line: string) {
    !IsBlank(line)
  }

  /** The records of a file: `split(/\n/)`, blank lines dropped, then
      `readLine` on each. */
  function ParseFile(content: string): (records: seq<seq<string>>)
    ensures forall i :: 0 <= i < |records| ==> |records[i]| >= 1
  {
    var lines := Filter(NotBlank, Split(content, "\n"));
    seq(|lines|, i requires 0 <= i < |lines| => ReadLine(lines[i]))
  }

  /** The lines of the file written, joined by `\n`. */
  function Serialize(lines: seq<string>): string {
    Join(lines, "\n")
  }

  function PrepareLines(records: seq<seq<string>>): (r: seq<string>)
    ensures |r| == |records|
    ensures forall i :: 0 <= i < |r| ==> r[i] == PrepareLine(records[i])
  {
    seq(|records|, i requires 0 <= i < |records| => PrepareLine(records[i]))
  }

  /** A record whose line is not blank: two fields or more, or one
      non-empty field. */
  predicate Writable(record: seq<string>) {
    |record| >= 2 || (|record| == 1 && record[0] != "")
  }

  /** An encoded line holds only base64 symbols, `=`, and the separator's
      characters. */
  lemma {:induction false} LineChars(record: seq<string>, c: char)
    requires c in PrepareLine(record)
    ensures Base64.IsAlphabetChar(c) || c == '=' || c in Separator
  {
    if !Base64.IsAlphabetChar(c) && c != '=' && c !in Separator {
      NotInJoin(EncodeFields(record), Separator, c);
    }
  }

  lemma LineHasNoNewline(record: seq<string>)
    ensures '\n' !in PrepareLine(record)
  {
    if '\n' in PrepareLine(record) {
      LineChars(record, '\n');
    }
  }

  lemma WritableLineNotBlank(record: seq<string>)
    requires Writable(record)
    ensures NotBlank(PrepareLine(record))
  {
    var e := EncodeFields(record);
    var line := PrepareLine(record);
    if |record| >= 2 {
      assert line == e[0] + Separator + Join(e[1..], Separator);
      assert line[|e[0]|] == '_';
    } else {
      assert line == e[0];
      assert Base64.IsAlphabetChar(line[0]) || line[0] == '=';
    }
  }

  /** Writing records that each give a non-blank line and reading the file
      back yields the same records, in the same order. */
  lemma ParseSerialize(records: seq<seq<string>>)
    requires forall i :: 0 <= i < |records| ==> Writable(records[i])
    ensures ParseFile(Serialize(PrepareLines(records))) == records
  {
    var lines := PrepareLines(records);
    if records == [] {
      assert Split("", "\n") == [""];
      assert Filter(NotBlank, [""]) == [];
    } else {
      forall i | 0 <= i < |lines| ensures "\n"[0] !in lines[i] {
        LineHasNoNewline(records[i]);
      }
      SplitJoin(lines, "\n");
      forall i | 0 <= i < |lines| ensures NotBlank(lines[i]) {
        WritableLineNotBlank(records[i]);
      }
      FilterAllKept(NotBlank, lines);
      forall i | 0 <= i < |records| ensures ReadLine(lines[i]) == records[i] {
        ReadPrepare(records[i]);
      }
    }
  }
}

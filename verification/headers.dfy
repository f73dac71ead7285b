/**
 * `parse_headers`: a block of `Name: value` lines becomes a map from the
 * stripped, lower-cased name to the stripped value. Lines without a colon are
 * ignored and a later line overwrites an earlier one with the same name.
 */
module Headers {
  import opened Results
  import opened Text

  datatype Field = Field(name: string, value: string)

  /** One line, split at its first colon (`line.split(":", 1)`); a line
      without a colon holds no field. */
  function FieldOf(line: string): (r: Option<Field>)
    ensures r.None? <==> ':' !in line
  {
    match IndexOfChar(line, ':')
    case None => None
    case Some(i) => Some(Field(Lower(Strip(line[..i])), Strip(line[i + 1..])))
  }

  /** A rendered `name: value` line parses back to its normalised name and
      value; the value may itself contain colons. */
  lemma FieldOfRendered(name: string, value: string)
    requires ':' !in name
    ensures FieldOf(name + ":" + value) == Some(Field(Lower(Strip(name)), Strip(value)))
  {
    var line := name + ":" + value;
    assert line[|name|] == ':';
    assert line[..|name|] == name;
    assert IndexOfChar(line, ':') == Some(|name|);
    assert line[|name| + 1..] == value;
  }

  /** The field of every line of `block`, in order. */
  function FieldsOf(block: string): (r: seq<Option<Field>>)
    ensures |r| == |Split(block, '\n')|
    ensures forall i :: 0 <= i < |r| ==> r[i] == FieldOf(Split(block, '\n')[i])
  {
    MapSeq(Split(block, '\n'), FieldOf)
  }

  /** Field `f` sets `key`. */
  predicate Sets(f: Option<Field>, key: string) {
    f.Some? && f.value.name == key
  }

  /** `fields[i]` is the last of `fields` that sets `key`. */
  ghost predicate LastSetting(fields: seq<Option<Field>>, i: int, key: string) {
    && 0 <= i < |fields|
    && Sets(fields[i], key)
    && forall j :: i < j < |fields| ==> !Sets(fields[j], key)
  }

  /** The loop of `parse_headers`, run over `fields` on top of the entries
      already collected in `acc`. */
  function Collect(fields: seq<Option<Field>>, acc: map<string, string>): (r: map<string, string>)
    ensures forall key :: key in r <==>
      key in acc || exists i :: 0 <= i < |fields| && Sets(fields[i], key)
    ensures forall i, key :: LastSetting(fields, i, key) ==>
      key in r && r[key] == fields[i].value.value
    ensures forall key :: key in acc && (forall i :: 0 <= i < |fields| ==> !Sets(fields[i], key)) ==>
      r[key] == acc[key]
    decreases |fields|
  {
    if |fields| == 0 then acc
    else
      var next := match fields[0]
        case None => acc
        case Some(f) => acc[f.name := f.value];
      var r := Collect(fields[1..], next);
      assert forall i, key :: LastSetting(fields, i, key) && i > 0 ==> LastSetting(fields[1..], i - 1, key);
      r
  }

  /** The map `parse_headers` builds from the fields of its lines. */
  function FromFields(fields: seq<Option<Field>>): (r: map<string, string>)
    ensures forall key :: key in r <==> exists i :: 0 <= i < |fields| && Sets(fields[i], key)
    ensures forall i, key :: LastSetting(fields, i, key) ==> key in r && r[key] == fields[i].value.value
  {
    Collect(fields, map[])
  }

  /** `parse_headers(block)`: every key is the name of some line's field, and
      its value is that of the last line with that name. */
  function ParseHeaders(block: string): (r: map<string, string>)
    ensures block == "" ==> r == map[]
    ensures forall key :: key in r <==>
      exists i :: 0 <= i < |FieldsOf(block)| && Sets(FieldsOf(block)[i], key)
    ensures forall i, key :: LastSetting(FieldsOf(block), i, key) ==>
      key in r && r[key] == FieldsOf(block)[i].value.value
  {
    EmptyBlockHasNoFields(block);
    FromFields(FieldsOf(block))
  }

  lemma EmptyBlockHasNoFields(block: string)
    ensures block == "" ==> forall i :: 0 <= i < |FieldsOf(block)| ==> FieldsOf(block)[i].None?
  {
    if block == "" {
      assert Split(block, '\n') == [""];
      assert FieldOf("") == None;
    }
  }

  /** Two lines whose names differ only in case and surrounding blanks
      (`Content-Type` and `content-type`) set one key, and the later wins. */
  lemma LaterDuplicateWins(name1: string, value1: string, name2: string, value2: string)
    requires ':' !in name1 && '\n' !in name1 && '\n' !in value1
    requires ':' !in name2 && '\n' !in name2 && '\n' !in value2
    requires Lower(Strip(name1)) == Lower(Strip(name2))
    ensures ParseHeaders((name1 + ":" + value1) + "\n" + (name2 + ":" + value2))
      == map[Lower(Strip(name2)) := Strip(value2)]
  {
    var line1 := name1 + ":" + value1;
    var line2 := name2 + ":" + value2;
    var block := line1 + "\n" + line2;
    TwoLines(line1, line2);
    FieldOfRendered(name1, value1);
    FieldOfRendered(name2, value2);
    var f1 := Field(Lower(Strip(name1)), Strip(value1));
    var f2 := Field(Lower(Strip(name2)), Strip(value2));
    SameNameTwice(f1, f2);
    Unfold(block);
  }

  lemma Unfold(block: string)
    ensures ParseHeaders(block) == FromFields(FieldsOf(block))
  {
  }

  lemma TwoLines(line1: string, line2: string)
    requires '\n' !in line1 && '\n' !in line2
    ensures FieldsOf(line1 + "\n" + line2) == [FieldOf(line1), FieldOf(line2)]
  {
    var xs := [line1, line2];
    assert xs[1..] == [line2];
    assert Join(xs, "\n") == line1 + "\n" + line2;
    SplitJoin(xs, '\n');
    var f := FieldsOf(line1 + "\n" + line2);
    assert f[0] == FieldOf(line1) && f[1] == FieldOf(line2);
  }

  lemma SameNameTwice(f1: Field, f2: Field)
    requires f1.name == f2.name
    ensures FromFields([Some(f1), Some(f2)]) == map[f2.name := f2.value]
  {
    assert [Some(f1), Some(f2)][1..] == [Some(f2)];
    assert Collect([Some(f2)], map[f1.name := f1.value]) == map[f2.name := f2.value];
  }
}

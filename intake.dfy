/**
 * The request rules of the evaluation form's `default` action in
 * `src/routes/+page.server.ts`: the CV is renamed after the applicant's full
 * name, a request with neither a CV nor the four profile fields is refused,
 * and the four fields are written into the e-mail (as HTML) and into the text
 * handed to the evaluator only when all of them are filled in.
 *
 * A form value is `None` when `formData.get` finds no such field; JavaScript's
 * truthiness of a present value is "not the empty string".  The CV file is
 * represented by its name.
 */
module Intake {
  import opened Text
  import opened Scan

  /** `if (value)` on a form value: present and not empty. */
  predicate Present(v: Option<string>)
  {
    v.Some? && v.value != ""
  }

  /** The four select fields that can stand in for a CV. */
  datatype Fields = Fields(
    academicLevel: Option<string>,
    yearsOfExperience: Option<string>,
    currentField: Option<string>,
    awards: Option<string>)

  /** `academicLevel && yearsOfExperience && currentField && awards`. */
  predicate Complete(f: Fields)
  {
    Present(f.academicLevel) && Present(f.yearsOfExperience) && Present(f.currentField) && Present(f.awards)
  }

  // ---------------------------------------------------------------- the new file name

  /** `String(fullName)`: a missing field prints as `null`. */
  function NameText(fullName: Option<string>): string
  {
    if fullName.Some? then fullName.value else "null"
  }

  /** `/\s+/` at `i`: the whole run of white space starting there. */
  function SpaceRun(s: string, i: nat): Option<Match>
  {
    if i < |s| && IsSpace(s[i]) then Some(Match(RunLength(s, i, IsSpace), [])) else None
  }

  /** The replacement `''`. */
  function Erase(m: string, groups: seq<string>): string
  {
    []
  }

  /** `name.replace(/\s+/g, '')`. */
  function Squeeze(name: string): string
  {
    ReplaceAll(name, SpaceRun, Erase)
  }

  /** Reference definition: the text with every white-space character left out. */
  function DropSpaces(s: string): (r: string)
    ensures forall k :: 0 <= k < |r| ==> !IsSpace(r[k])
    ensures |r| <= |s|
  {
    if s == [] then [] else (if IsSpace(s[0]) then [] else [s[0]]) + DropSpaces(s[1..])
  }

  /** `name.split('.').pop()`: the text after the last dot, or the whole name when it has none. */
  function Extension(name: string): string
  {
    var parts := Split(name, '.');
    parts[|parts| - 1]
  }

  /** The name given to an uploaded CV: the full name without white space, a dot, and the old extension. */
  function NewFileName(fullName: Option<string>, cvName: string): (r: string)
    ensures Present(Some(r))
  {
    Squeeze(NameText(fullName)) + "." + Extension(cvName)
  }

  /** The CV after the renaming step: a file with a name gets the new name, anything else is left alone. */
  function Renamed(fullName: Option<string>, cv: Option<string>): (r: Option<string>)
    ensures Present(r) <==> Present(cv)
  {
    if Present(cv) then Some(NewFileName(fullName, cv.value)) else cv
  }

  // ---------------------------------------------------------------- validation and the fields

  const NoCvError := "The is no cv file and the fields are not complete. Email has not been sent."

  /** The guard of the early return: no CV name, and some field missing. */
  predicate Rejects(cv: Option<string>, f: Fields)
  {
    (cv.None? || cv.value == "")
    && (!Present(f.academicLevel) || !Present(f.yearsOfExperience) || !Present(f.currentField) || !Present(f.awards))
  }

  /** The indentation of the lines inside the two template literals, and of their closing line. */
  const Indent := "                    "
  const Closing := "                "

  const LevelLabel := "Nivel Académico"
  const YearsLabel := "Años de Experiencia Profesional"
  const FieldLabel := "Área o Campo Profesional Actual"
  const AwardsLabel := "Reconocimientos o Premios"

  /** One paragraph of the extra e-mail block. */
  function HtmlLine(margin: string, caption: string, v: string): string
  {
    Indent + "<p style=\"font-size: inherit; margin: " + margin + ";\"><strong>" + caption + ":</strong> " + v + "</p>"
  }

  /** One line of `fieldsInfo`. */
  function InfoLine(caption: string, v: string): string
  {
    Indent + caption + ": " + v + "."
  }

  /** What `html +=` appends for the fields: the four paragraphs, or nothing. */
  function ExtraHtml(f: Fields): (h: string)
    ensures h != [] <==> Complete(f)
  {
    if Complete(f) then
      "\n" + HtmlLine("30px 0 10px", LevelLabel, f.academicLevel.value) + "\n"
      + HtmlLine("10px 0", YearsLabel, f.yearsOfExperience.value) + "\n"
      + HtmlLine("10px 0", FieldLabel, f.currentField.value) + "\n"
      + HtmlLine("10px 0", AwardsLabel, f.awards.value) + "\n"
      + Closing
    else []
  }

  /** `fieldsInfo`: the four fields as text, or `""`. */
  function FieldsInfo(f: Fields): (info: string)
    ensures info != [] <==> Complete(f)
  {
    if Complete(f) then
      "\n" + InfoLine(LevelLabel, f.academicLevel.value) + "\n"
      + InfoLine(YearsLabel, f.yearsOfExperience.value) + "\n"
      + InfoLine(FieldLabel, f.currentField.value) + "\n"
      + InfoLine(AwardsLabel, f.awards.value) + "\n"
      + Closing
    else []
  }

  datatype Request = Request(fullName: Option<string>, cv: Option<string>, fields: Fields)

  /** What the rules decide: the refusal, or the attachment's name (if any) and the two renderings of the fields. */
  datatype Outcome =
    | Refused(error: string)
    | Accepted(attachment: Option<string>, extraHtml: string, fieldsInfo: string)

  /** The rename, the guard and the fields step, in the order the action takes them. */
  function Decide(req: Request): (o: Outcome)
    ensures o.Refused? <==> !Present(req.cv) && !Complete(req.fields)
    ensures o.Refused? ==> o.error == NoCvError
    ensures o.Accepted? ==> o.attachment.Some? || o.fieldsInfo != []
  {
    var cv := Renamed(req.fullName, req.cv);
    if Rejects(cv, req.fields) then Refused(NoCvError)
    else Accepted(if Present(cv) then cv else None, ExtraHtml(req.fields), FieldsInfo(req.fields))
  }

  // ---------------------------------------------------------------- properties

  lemma {:induction false} DropSpacesConcat(a: string, b: string)
    ensures DropSpaces(a + b) == DropSpaces(a) + DropSpaces(b)
  {
    if a == [] {
      assert a + b == b;
    } else {
      assert (a + b)[0] == a[0] && (a + b)[1..] == a[1..] + b;
      DropSpacesConcat(a[1..], b);
    }
  }

  lemma {:induction false} DropAllSpaces(s: string)
    requires forall k :: 0 <= k < |s| ==> IsSpace(s[k])
    ensures DropSpaces(s) == []
  {
    if s != [] {
      DropAllSpaces(s[1..]);
    }
  }

  lemma {:induction false} SqueezeFrom(s: string, i: nat)
    requires i <= |s|
    ensures ReplaceFrom(s, i, SpaceRun, Erase) == DropSpaces(s[i..])
    decreases |s| - i
  {
    if i < |s| {
      if IsSpace(s[i]) {
        var n := RunLength(s, i, IsSpace);
        SqueezeFrom(s, i + n);
        SqueezeRun(s, i, n);
      } else {
        SqueezeFrom(s, i + 1);
        SqueezeKeep(s, i);
      }
    }
  }

  lemma SqueezeRun(s: string, i: nat, n: nat)
    requires i < |s| && IsSpace(s[i]) && n == RunLength(s, i, IsSpace)
    requires ReplaceFrom(s, i + n, SpaceRun, Erase) == DropSpaces(s[i + n..])
    ensures ReplaceFrom(s, i, SpaceRun, Erase) == DropSpaces(s[i..])
  {
    ReplaceHit(s, i, SpaceRun, Erase);
    SliceSplit(s, i, i + n);
    DropSpacesConcat(s[i..i + n], s[i + n..]);
    DropAllSpaces(s[i..i + n]);
  }

  lemma SqueezeKeep(s: string, i: nat)
    requires i < |s| && !IsSpace(s[i])
    requires ReplaceFrom(s, i + 1, SpaceRun, Erase) == DropSpaces(s[i + 1..])
    ensures ReplaceFrom(s, i, SpaceRun, Erase) == DropSpaces(s[i..])
  {
    ReplaceMiss(s, i, SpaceRun, Erase);
    assert s[i..][1..] == s[i + 1..];
  }

  /** Removing white-space runs is the same as leaving out every white-space character. */
  lemma SqueezeDropsSpaces(name: string)
    ensures Squeeze(name) == DropSpaces(name)
  {
    SqueezeFrom(name, 0);
    assert name[0..] == name;
  }

  /** Splitting `a.b` where `b` has no dot: at least two parts, the last of them `b`. */
  lemma {:induction false} SplitLast(a: string, b: string, sep: char)
    requires sep !in b
    ensures |Split(a + [sep] + b, sep)| >= 2
    ensures Split(a + [sep] + b, sep)[|Split(a + [sep] + b, sep)| - 1] == b
    decreases |a|
  {
    if a == [] {
      assert a + [sep] + b == [sep] + b;
      assert ([sep] + b)[1..] == b;
      SplitJoin([b], sep);
    } else {
      SplitLast(a[1..], b, sep);
      assert (a + [sep] + b)[0] == a[0] && (a + [sep] + b)[1..] == a[1..] + [sep] + b;
    }
  }

  /** The extension holds no dot; it is the whole name when the name has no dot, and what follows the last dot otherwise. */
  lemma ExtensionAfterLastDot(name: string)
    ensures '.' !in Extension(name)
    ensures '.' !in name ==> Extension(name) == name
    ensures '.' in name ==> exists stem :: name == stem + "." + Extension(name)
  {
    var parts := Split(name, '.');
    JoinSplit(name, '.');
    if '.' !in name {
      SplitJoin([name], '.');
    } else {
      var n := |parts| - 1;
      JoinCut(parts, n, ".");
      assert parts[n..] == [parts[n]];
      assert name == Join(parts[..n], ".") + "." + Extension(name);
    }
  }

  /** The new name is the full name with its white space removed, a dot, and the old extension. */
  lemma NewFileNameShape(fullName: Option<string>, cvName: string)
    ensures NewFileName(fullName, cvName) == DropSpaces(NameText(fullName)) + "." + Extension(cvName)
    ensures '.' !in Extension(cvName)
  {
    SqueezeDropsSpaces(NameText(fullName));
    ExtensionAfterLastDot(cvName);
  }

  /** The renamed file keeps the extension of the uploaded one. */
  lemma RenameKeepsExtension(fullName: Option<string>, cvName: string)
    ensures Extension(NewFileName(fullName, cvName)) == Extension(cvName)
  {
    ExtensionAfterLastDot(cvName);
    SplitLast(Squeeze(NameText(fullName)), Extension(cvName), '.');
  }

  /** Renaming an already renamed file changes nothing. */
  lemma RenameIdempotent(fullName: Option<string>, cvName: string)
    ensures NewFileName(fullName, NewFileName(fullName, cvName)) == NewFileName(fullName, cvName)
  {
    RenameKeepsExtension(fullName, cvName);
  }

  /** The guard refuses exactly the requests that have neither a CV name nor all four fields. */
  lemma RejectsIff(cv: Option<string>, f: Fields)
    ensures Rejects(cv, f) <==> !Present(cv) && !Complete(f)
  {
  }

  /** A CV with a blank name counts as no CV at all. */
  lemma BlankCvNameRefused(fullName: Option<string>, f: Fields)
    requires !Complete(f)
    ensures Decide(Request(fullName, Some(""), f)) == Refused(NoCvError)
  {
  }

  /** With every field present, the information text lists them one per line, in the form's order. */
  lemma {:induction false} FieldsInfoLines(f: Fields)
    requires Complete(f)
    requires '\n' !in f.academicLevel.value && '\n' !in f.yearsOfExperience.value
    requires '\n' !in f.currentField.value && '\n' !in f.awards.value
    ensures Split(FieldsInfo(f), '\n') == [
      "",
      InfoLine(LevelLabel, f.academicLevel.value),
      InfoLine(YearsLabel, f.yearsOfExperience.value),
      InfoLine(FieldLabel, f.currentField.value),
      InfoLine(AwardsLabel, f.awards.value),
      Closing]
  {
    var lines := [
      "",
      InfoLine(LevelLabel, f.academicLevel.value),
      InfoLine(YearsLabel, f.yearsOfExperience.value),
      InfoLine(FieldLabel, f.currentField.value),
      InfoLine(AwardsLabel, f.awards.value),
      Closing];
    NoBreakInFrame();
    InfoLineUnbroken(LevelLabel, f.academicLevel.value);
    InfoLineUnbroken(YearsLabel, f.yearsOfExperience.value);
    InfoLineUnbroken(FieldLabel, f.currentField.value);
    InfoLineUnbroken(AwardsLabel, f.awards.value);
    JoinSix(lines, "\n");
    assert "" + "\n" == "\n";
    SplitJoin(lines, '\n');
  }

  /** With every field present, the e-mail block holds one paragraph per field, in the form's order. */
  lemma {:induction false} ExtraHtmlLines(f: Fields)
    requires Complete(f)
    requires '\n' !in f.academicLevel.value && '\n' !in f.yearsOfExperience.value
    requires '\n' !in f.currentField.value && '\n' !in f.awards.value
    ensures Split(ExtraHtml(f), '\n') == [
      "",
      HtmlLine("30px 0 10px", LevelLabel, f.academicLevel.value),
      HtmlLine("10px 0", YearsLabel, f.yearsOfExperience.value),
      HtmlLine("10px 0", FieldLabel, f.currentField.value),
      HtmlLine("10px 0", AwardsLabel, f.awards.value),
      Closing]
  {
    var lines := [
      "",
      HtmlLine("30px 0 10px", LevelLabel, f.academicLevel.value),
      HtmlLine("10px 0", YearsLabel, f.yearsOfExperience.value),
      HtmlLine("10px 0", FieldLabel, f.currentField.value),
      HtmlLine("10px 0", AwardsLabel, f.awards.value),
      Closing];
    NoBreakInFrame();
    HtmlLineUnbroken("30px 0 10px", LevelLabel, f.academicLevel.value);
    HtmlLineUnbroken("10px 0", YearsLabel, f.yearsOfExperience.value);
    HtmlLineUnbroken("10px 0", FieldLabel, f.currentField.value);
    HtmlLineUnbroken("10px 0", AwardsLabel, f.awards.value);
    JoinSix(lines, "\n");
    assert "" + "\n" == "\n";
    SplitJoin(lines, '\n');
  }

  /** The fixed text around the values holds no line break. */
  lemma NoBreakInFrame()
    ensures '\n' !in Indent && '\n' !in Closing
    ensures '\n' !in LevelLabel && '\n' !in YearsLabel && '\n' !in FieldLabel && '\n' !in AwardsLabel
  {
    NoBreakInMargins();
    NoBreakInShortLabels();
    NoBreakInLongLabels();
  }

  lemma NoBreakInMargins()
    ensures '\n' !in Indent && '\n' !in Closing
  {
  }

  lemma NoBreakInShortLabels()
    ensures '\n' !in LevelLabel && '\n' !in AwardsLabel
  {
  }

  lemma NoBreakInLongLabels()
    ensures '\n' !in YearsLabel && '\n' !in FieldLabel
  {
  }

  lemma InfoLineUnbroken(caption: string, v: string)
    requires '\n' !in caption && '\n' !in v
    ensures '\n' !in InfoLine(caption, v)
  {
    NoBreakInFrame();
  }

  lemma HtmlLineUnbroken(margin: string, caption: string, v: string)
    requires '\n' !in margin && '\n' !in caption && '\n' !in v
    ensures '\n' !in HtmlLine(margin, caption, v)
  {
    NoBreakInFrame();
    assert '\n' !in "<p style=\"font-size: inherit; margin: ";
    assert '\n' !in ";\"><strong>";
    assert '\n' !in ":</strong> ";
    assert '\n' !in "</p>";
  }

  lemma JoinSix(ls: seq<string>, sep: string)
    requires |ls| == 6
    ensures Join(ls, sep) == ls[0] + sep + ls[1] + sep + ls[2] + sep + ls[3] + sep + ls[4] + sep + ls[5]
  {
    assert Join(ls[5..], sep) == ls[5];
    assert Join(ls[4..], sep) == ls[4] + sep + ls[5] by { assert ls[4..][1..] == ls[5..]; }
    assert Join(ls[3..], sep) == ls[3] + sep + Join(ls[4..], sep) by { assert ls[3..][1..] == ls[4..]; }
    assert Join(ls[2..], sep) == ls[2] + sep + Join(ls[3..], sep) by { assert ls[2..][1..] == ls[3..]; }
    assert Join(ls[1..], sep) == ls[1] + sep + Join(ls[2..], sep) by { assert ls[1..][1..] == ls[2..]; }
  }
}

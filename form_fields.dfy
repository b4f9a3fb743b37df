/**
 * The form page of `apps/app/src/pages/form.tsx`: the fixed table of the
 * five optional contact-form fields, the choice of the enabled ones, the
 * columns of the submissions table built from them, and the shape of the
 * settings object `formSchema` accepts.
 */
module FormFields {
  import opened Wrappers

  /** One entry of the `fields` table: the names of the form's columns for
      one optional input, and its labels (`switchLabel` is the source's
      `label`, a word Dafny reserves). */
  datatype Field = Field(
    name: string,
    rawName: string,
    switchLabel: string,
    rawLabel: string,
    labelName: string,
    requiredName: string)

  /** `fields`: name, email, subject, phone and message, in that order. */
  function Fields(): seq<Field>
  {
    [NameEntry(), EmailEntry(), SubjectEntry(), PhoneEntry(), MessageEntry()]
  }

  function NameEntry(): Field
  {
    Field("nameField", "name", "Name field", "Name", "nameFieldLabel", "nameFieldRequired")
  }

  function EmailEntry(): Field
  {
    Field("emailField", "email", "Email field", "Email", "emailFieldLabel", "emailFieldRequired")
  }

  function SubjectEntry(): Field
  {
    Field("subjectField", "subject", "Subject field", "Subject", "subjectFieldLabel", "subjectFieldRequired")
  }

  function PhoneEntry(): Field
  {
    Field("phoneField", "phone", "Phone field", "Phone", "phoneFieldLabel", "phoneFieldRequired")
  }

  function MessageEntry(): Field
  {
    Field("messageField", "message", "Message field", "Message", "messageFieldLabel", "messageFieldRequired")
  }

  /** Each entry's column names are its raw name followed by `Field`,
      `FieldLabel` and `FieldRequired`. */
  ghost predicate NamedConsistently(f: Field)
  {
    && f.name == f.rawName + "Field"
    && f.labelName == f.rawName + "FieldLabel"
    && f.requiredName == f.rawName + "FieldRequired"
  }

  lemma NameEntryNamed() ensures NamedConsistently(NameEntry()) {}
  lemma EmailEntryNamed() ensures NamedConsistently(EmailEntry()) {}
  lemma SubjectEntryNamed() ensures NamedConsistently(SubjectEntry()) {}
  lemma PhoneEntryNamed() ensures NamedConsistently(PhoneEntry()) {}
  lemma MessageEntryNamed() ensures NamedConsistently(MessageEntry()) {}

  /** Every entry of `fields` names its columns after its raw name. */
  lemma FieldsNamedConsistently()
    ensures forall i :: 0 <= i < |Fields()| ==> NamedConsistently(Fields()[i])
  {
    NameEntryNamed();
    EmailEntryNamed();
    SubjectEntryNamed();
    PhoneEntryNamed();
    MessageEntryNamed();
  }

  function RawNames(fs: seq<Field>): (r: seq<string>)
    ensures |r| == |fs| && forall i :: 0 <= i < |fs| ==> r[i] == fs[i].rawName
  {
    if fs == [] then [] else [fs[0].rawName] + RawNames(fs[1..])
  }

  /** The table lists the five inputs in their fixed order, under five distinct names. */
  lemma FieldsOrderAndNames()
    ensures |Fields()| == 5
    ensures RawNames(Fields()) == ["name", "email", "subject", "phone", "message"]
    ensures forall i, j :: 0 <= i < j < |Fields()| ==> Fields()[i].name != Fields()[j].name
  {
    var fs := Fields();
    assert RawNames(fs) == [fs[0].rawName, fs[1].rawName, fs[2].rawName, fs[3].rawName, fs[4].rawName];
    assert fs[0].name[0] == 'n' && fs[1].name[0] == 'e' && fs[2].name[0] == 's';
    assert fs[3].name[0] == 'p' && fs[4].name[0] == 'm';
  }

  // ---------------------------------------------------------------------------
  // Enabled fields
  // ---------------------------------------------------------------------------

  /** The stored form: `toggles` holds its boolean columns by name (a
      column that is null is absent); `form[key]` is `toggles[key]`. */
  datatype Form = Form(toggles: map<string, bool>)

  /** `!!form[field.name]`. */
  predicate IsEnabled(form: Form, field: Field)
  {
    field.name in form.toggles && form.toggles[field.name]
  }

  /** `a` is `b` with some entries left out and the rest in their order. */
  ghost predicate IsSubsequence(a: seq<Field>, b: seq<Field>)
    decreases |b|
  {
    if a == [] then true
    else if b == [] then false
    else (a[0] == b[0] && IsSubsequence(a[1..], b[1..])) || IsSubsequence(a, b[1..])
  }

  /** `fs.filter((field) => !!form[field.name])`. */
  function EnabledAmong(form: Form, fs: seq<Field>): (r: seq<Field>)
    ensures |r| <= |fs|
    ensures forall f :: f in r <==> f in fs && IsEnabled(form, f)
    ensures IsSubsequence(r, fs)
  {
    if fs == [] then []
    else if IsEnabled(form, fs[0]) then [fs[0]] + EnabledAmong(form, fs[1..])
    else EnabledAmong(form, fs[1..])
  }

  /** `enabledFields` of `FormSubmissionsTable`. */
  function EnabledFields(form: Form): seq<Field>
  {
    EnabledAmong(form, Fields())
  }

  /** A field is enabled exactly when the form's flag under its name is set,
      and the enabled fields keep the table's order. */
  lemma EnabledFieldsExactly(form: Form)
    ensures forall f :: f in EnabledFields(form) <==> f in Fields() && IsEnabled(form, f)
    ensures IsSubsequence(EnabledFields(form), Fields())
    ensures |EnabledFields(form)| <= 5
  {
  }

  /** With every flag set the filter keeps all fields; with none set, none. */
  lemma {:induction false} EnabledAmongExtremes(form: Form, fs: seq<Field>)
    ensures (forall i :: 0 <= i < |fs| ==> IsEnabled(form, fs[i])) ==> EnabledAmong(form, fs) == fs
    ensures (forall i :: 0 <= i < |fs| ==> !IsEnabled(form, fs[i])) ==> EnabledAmong(form, fs) == []
  {
    if fs != [] {
      EnabledAmongExtremes(form, fs[1..]);
      assert fs == [fs[0]] + fs[1..];
    }
  }

  // ---------------------------------------------------------------------------
  // The submissions table
  // ---------------------------------------------------------------------------

  /** A stored submission: one nullable column per input, and when it was sent. */
  datatype Submission = Submission(
    name: Option<string>,
    email: Option<string>,
    subject: Option<string>,
    phone: Option<string>,
    message: Option<string>,
    sentAt: int)

  /** `submission[field.rawName]`. */
  function ValueOf(submission: Submission, rawName: string): Option<string>
  {
    if rawName == "name" then submission.name
    else if rawName == "email" then submission.email
    else if rawName == "subject" then submission.subject
    else if rawName == "phone" then submission.phone
    else if rawName == "message" then submission.message
    else None
  }

  /** A body cell: a field's value, or the formatted time it was sent. */
  datatype Cell = Value(text: Option<string>) | SentAt(time: int)

  /** The header row: one column per enabled field, then "Time". */
  function HeaderRow(enabled: seq<Field>): (r: seq<string>)
    ensures |r| == |enabled| + 1 && r[|enabled|] == "Time"
  {
    if enabled == [] then ["Time"] else [enabled[0].rawLabel] + HeaderRow(enabled[1..])
  }

  /** The row of one submission: its value under each enabled field, then its time. */
  function BodyRow(submission: Submission, enabled: seq<Field>): (r: seq<Cell>)
    ensures |r| == |enabled| + 1 && r[|enabled|] == SentAt(submission.sentAt)
  {
    if enabled == [] then [SentAt(submission.sentAt)]
    else [Value(ValueOf(submission, enabled[0].rawName))] + BodyRow(submission, enabled[1..])
  }

  /** Column i of every row belongs to the field that heads column i. */
  lemma {:induction false} ColumnsLineUp(submission: Submission, enabled: seq<Field>, i: nat)
    requires i < |enabled|
    ensures HeaderRow(enabled)[i] == enabled[i].rawLabel
    ensures BodyRow(submission, enabled)[i] == Value(ValueOf(submission, enabled[i].rawName))
  {
    if i > 0 {
      ColumnsLineUp(submission, enabled[1..], i - 1);
    }
  }

  /** What `FormSubmissionsTable` shows: the table when there is a
      submission, the empty message otherwise. */
  datatype View = Table(header: seq<string>, rows: seq<seq<Cell>>) | EmptyMessage

  function SubmissionsView(form: Form, submissions: seq<Submission>): (v: View)
    ensures v.EmptyMessage? <==> |submissions| == 0
  {
    if |submissions| > 0 then
      Table(HeaderRow(EnabledFields(form)),
            seq(|submissions|, k requires 0 <= k < |submissions| => BodyRow(submissions[k], EnabledFields(form))))
    else EmptyMessage
  }

  /** Every row of the table has one cell per header column, in the header's
      order: the enabled fields in table order, then the time. */
  lemma TableIsRectangular(form: Form, submissions: seq<Submission>)
    requires |submissions| > 0
    ensures var v := SubmissionsView(form, submissions);
      && v.Table?
      && |v.header| == |EnabledFields(form)| + 1
      && |v.rows| == |submissions|
      && forall k :: 0 <= k < |submissions| ==>
           && |v.rows[k]| == |v.header|
           && v.rows[k][|v.header| - 1] == SentAt(submissions[k].sentAt)
           && forall i :: 0 <= i < |v.header| - 1 ==>
                v.header[i] == EnabledFields(form)[i].rawLabel
                && v.rows[k][i] == Value(ValueOf(submissions[k], EnabledFields(form)[i].rawName))
  {
    var enabled := EnabledFields(form);
    forall k, i | 0 <= k < |submissions| && 0 <= i < |enabled|
      ensures HeaderRow(enabled)[i] == enabled[i].rawLabel
      ensures BodyRow(submissions[k], enabled)[i] == Value(ValueOf(submissions[k], enabled[i].rawName))
    {
      ColumnsLineUp(submissions[k], enabled, i);
    }
  }

  // ---------------------------------------------------------------------------
  // formSchema
  // ---------------------------------------------------------------------------

  /** A value in a submitted settings object. */
  datatype Json = JBool(b: bool) | JString(s: string) | JNumber(n: int) | JNull

  datatype Kind = BoolKind | StringKind

  /** The keys of `formSchema` and the kind each accepts; every one is optional. */
  function SchemaKinds(): map<string, Kind>
  {
    map[
      "nameField" := BoolKind, "emailField" := BoolKind, "subjectField" := BoolKind,
      "phoneField" := BoolKind, "messageField" := BoolKind,
      "nameFieldLabel" := StringKind, "emailFieldLabel" := StringKind, "subjectFieldLabel" := StringKind,
      "phoneFieldLabel" := StringKind, "messageFieldLabel" := StringKind,
      "nameFieldRequired" := BoolKind, "emailFieldRequired" := BoolKind, "subjectFieldRequired" := BoolKind,
      "phoneFieldRequired" := BoolKind, "messageFieldRequired" := BoolKind,
      "title" := StringKind, "submitButtonText" := StringKind, "submissionSuccessMessage" := StringKind
    ]
  }

  predicate HasKind(v: Json, k: Kind)
  {
    match k
    case BoolKind => v.JBool?
    case StringKind => v.JString?
  }

  /** `formSchema.parse(obj)`: a key of the schema that is present must hold
      a value of its kind (null is refused); an absent key is fine; keys
      outside the schema are dropped. A refusal names every offending key. */
  function ParseSettings(obj: map<string, Json>): (r: Result<map<string, Json>, set<string>>)
    ensures r.Ok? ==> r.value.Keys == obj.Keys * SchemaKinds().Keys
    ensures r.Ok? ==> forall k :: k in r.value ==> r.value[k] == obj[k] && HasKind(obj[k], SchemaKinds()[k])
    ensures r.Err? ==> r.error != {}
    ensures r.Err? ==>
      forall k :: k in r.error <==> k in obj && k in SchemaKinds() && !HasKind(obj[k], SchemaKinds()[k])
  {
    var kinds := SchemaKinds();
    var bad := set k | k in obj && k in kinds && !HasKind(obj[k], kinds[k]);
    if bad == {} then
      var m := map k | k in obj && k in kinds :: obj[k];
      assert m.Keys == obj.Keys * kinds.Keys;
      assert forall k :: k in obj && k in kinds && !HasKind(obj[k], kinds[k]) ==> k in bad;
      Ok(m)
    else Err(bad)
  }

  /** Every key is optional: the empty object is valid, and dropping any key
      from a valid object leaves a valid object. */
  lemma EveryKeyOptional(obj: map<string, Json>, key: string)
    ensures ParseSettings(map[]) == Ok(map[])
    ensures ParseSettings(obj).Ok? ==> ParseSettings(obj - {key}).Ok?
  {
    var kinds := SchemaKinds();
    var empty: map<string, Json> := map[];
    assert (set k | k in empty && k in kinds && !HasKind(empty[k], kinds[k])) == {};
    if ParseSettings(obj).Ok? {
      var smaller := obj - {key};
      var bad := set k | k in smaller && k in kinds && !HasKind(smaller[k], kinds[k]);
      assert bad == {};
    }
  }

  /** What the schema accepts passes through it unchanged. */
  lemma ParseSettingsIdempotent(obj: map<string, Json>)
    requires ParseSettings(obj).Ok?
    ensures ParseSettings(ParseSettings(obj).value) == ParseSettings(obj)
  {
    var kinds := SchemaKinds();
    var v := ParseSettings(obj).value;
    var bad := set k | k in v && k in kinds && !HasKind(v[k], kinds[k]);
    assert bad == {};
    assert (map k | k in v && k in kinds :: v[k]) == v;
  }

  /** The settings form and the schema agree: each field's toggle and
      "required" keys take a boolean and its label key takes a string. */
  lemma FieldKeysInSchema()
    ensures forall i :: 0 <= i < |Fields()| ==>
      && Fields()[i].name in SchemaKinds() && SchemaKinds()[Fields()[i].name] == BoolKind
      && Fields()[i].labelName in SchemaKinds() && SchemaKinds()[Fields()[i].labelName] == StringKind
      && Fields()[i].requiredName in SchemaKinds() && SchemaKinds()[Fields()[i].requiredName] == BoolKind
  {
  }
}

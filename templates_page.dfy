/**
 * Measurement templates: the field list edited in the form (each field keyed
 * by a slug of its English label), the guarded submit, and the import of a
 * list of templates, each re-keyed with a fresh id.
 */
module TemplatesPage {
  import opened Wrappers
  import opened Text
  import opened JsValues
  import opened Seqs
  import opened StoreModel
  import opened IndexedDb

  /* ----------------------------------------------------------------- slug */

  /** The text after a leading run of whitespace. */
  function SkipSpace(s: string): (r: string)
    ensures |r| <= |s| && r == s[|s| - |r|..]
    ensures r == [] || !IsSpace(r[0])
    ensures s != [] && IsSpace(s[0]) ==> |r| < |s|
  {
    if s != [] && IsSpace(s[0]) then SkipSpace(s[1..]) else s
  }

  predicate IsUpper(c: char) {
    'A' <= c <= 'Z'
  }

  /** `s.replace(/\s+/g, "_")`: each maximal run of whitespace becomes one `_`. */
  function CollapseSpace(s: string): (r: string)
    ensures forall i :: 0 <= i < |r| ==> !IsSpace(r[i])
    decreases |s|
  {
    if s == [] then []
    else if IsSpace(s[0]) then
      "_" + CollapseSpace(SkipSpace(s))
    else
      [s[0]] + CollapseSpace(s[1..])
  }

  /** Text without whitespace is left as it is. */
  lemma {:induction false} CollapseSpaceNone(s: string)
    requires forall i :: 0 <= i < |s| ==> !IsSpace(s[i])
    ensures CollapseSpace(s) == s
  {
    if s != [] {
      CollapseSpaceNone(s[1..]);
    }
  }

  /** Every character of the result is a `_` or one of the text's own characters. */
  lemma {:induction false} CollapseSpaceFrom(s: string)
    ensures forall c :: c in CollapseSpace(s) ==> c == '_' || c in s
    decreases |s|
  {
    if s != [] {
      if IsSpace(s[0]) {
        var t := SkipSpace(s);
        CollapseSpaceFrom(t);
        assert forall c :: c in t ==> c in s;
      } else {
        CollapseSpaceFrom(s[1..]);
      }
    }
  }

  /** `label_en.toLowerCase().replace(/\s+/g, "_")`: the key a field is stored under. */
  function Slug(name: string): (key: string)
    ensures forall i :: 0 <= i < |key| ==> !IsSpace(key[i]) && !IsUpper(key[i])
  {
    var low := Lower(name);
    assert forall c :: c in low ==> !IsUpper(c) by {
      forall c | c in low ensures !IsUpper(c) {
        var i :| 0 <= i < |low| && low[i] == c;
        assert c == LowerChar(name[i]);
      }
    }
    CollapseSpaceFrom(low);
    CollapseSpace(low)
  }

  /** Text with no capital letter is its own lower case. */
  lemma {:induction false} LowerNone(s: string)
    requires forall i :: 0 <= i < |s| ==> !IsUpper(s[i])
    ensures Lower(s) == s
  {
  }

  /** A key is its own slug, so slugging twice changes nothing. */
  lemma SlugIdempotent(name: string)
    ensures Slug(Slug(name)) == Slug(name)
  {
    var key := Slug(name);
    LowerNone(key);
    CollapseSpaceNone(key);
  }

  /** A label is kept when it has no capitals and no whitespace. */
  lemma SlugPlain(name: string)
    requires forall i :: 0 <= i < |name| ==> !IsSpace(name[i]) && !IsUpper(name[i])
    ensures Slug(name) == name
  {
    LowerNone(name);
    CollapseSpaceNone(name);
  }

  /** A whole run of whitespace is skipped at once. */
  lemma {:induction false} SkipSpaceRun(run: string, rest: string)
    requires forall i :: 0 <= i < |run| ==> IsSpace(run[i])
    requires rest == [] || !IsSpace(rest[0])
    ensures SkipSpace(run + rest) == rest
  {
    if run != [] {
      var s := run + rest;
      assert SkipSpace(s) == SkipSpace(run[1..] + rest) by {
        assert s[0] == run[0] && IsSpace(s[0]);
        assert s[1..] == run[1..] + rest;
      }
      assert SkipSpace(run[1..] + rest) == rest by {
        forall i | 0 <= i < |run| - 1 ensures IsSpace(run[1..][i]) {
          assert run[1..][i] == run[i + 1];
        }
        SkipSpaceRun(run[1..], rest);
      }
    } else {
      assert run + rest == rest;
    }
  }

  /** A word, then a run of whitespace of any length, then the next word: the run becomes a single `_`. */
  lemma CollapseSpaceRun(w: string, run: string, rest: string)
    requires forall i :: 0 <= i < |w| ==> !IsSpace(w[i])
    requires run != [] && forall i :: 0 <= i < |run| ==> IsSpace(run[i])
    requires rest == [] || !IsSpace(rest[0])
    ensures CollapseSpace(w + run + rest) == w + "_" + CollapseSpace(rest)
  {
    var tail := run + rest;
    assert w + run + rest == w + tail;
    CollapseSpaceWord(w, tail);
    SkipSpaceRun(run, rest);
    assert tail[0] == run[0] && IsSpace(tail[0]);
    assert CollapseSpace(tail) == "_" + CollapseSpace(rest);
  }

  /** Characters before the first whitespace are copied as they are. */
  lemma {:induction false} CollapseSpaceWord(w: string, rest: string)
    requires forall i :: 0 <= i < |w| ==> !IsSpace(w[i])
    ensures CollapseSpace(w + rest) == w + CollapseSpace(rest)
  {
    if w != [] {
      var s := w + rest;
      assert CollapseSpace(s) == [w[0]] + CollapseSpace(w[1..] + rest) by {
        assert s[0] == w[0] && !IsSpace(s[0]);
        assert s[1..] == w[1..] + rest;
      }
      assert CollapseSpace(w[1..] + rest) == w[1..] + CollapseSpace(rest) by {
        forall i | 0 <= i < |w| - 1 ensures !IsSpace(w[1..][i]) {
          assert w[1..][i] == w[i + 1];
        }
        CollapseSpaceWord(w[1..], rest);
      }
      assert [w[0]] + (w[1..] + CollapseSpace(rest)) == w + CollapseSpace(rest);
    } else {
      assert w + rest == rest;
    }
  }

  /* ----------------------------------------------------------- field list */

  /** `newField`: the inputs for the next field. */
  datatype FieldInput = FieldInput(labelEn: string, labelUr: string, unit: string)

  const BlankField := FieldInput("", "", "inches")

  /** One entry of `measurements`. */
  datatype MeasurementField = MeasurementField(field: string, labelEn: string, labelUr: string, unit: string)

  /** `formData`. */
  datatype TemplateForm = TemplateForm(name: string, category: string, measurements: seq<MeasurementField>)

  const BlankTemplate := TemplateForm("", "shirt", [])

  /** The field built from the inputs. */
  function NewField(input: FieldInput): (f: MeasurementField)
    ensures f.field == Slug(input.labelEn)
    ensures f.labelEn == input.labelEn && f.labelUr == input.labelUr && f.unit == input.unit
  {
    MeasurementField(Slug(input.labelEn), input.labelEn, input.labelUr, input.unit)
  }

  /** The form and the field inputs after `addMeasurementField`. */
  datatype Editing = Editing(form: TemplateForm, input: FieldInput)

  /**
   * `addMeasurementField`: an empty English label is refused and nothing
   * changes; otherwise the field goes at the end and the inputs are reset.
   */
  function AddMeasurementField(form: TemplateForm, input: FieldInput): (e: Editing)
    ensures input.labelEn == "" ==> e == Editing(form, input)
    ensures input.labelEn != "" ==>
      e.input == BlankField
      && e.form.name == form.name && e.form.category == form.category
      && |e.form.measurements| == |form.measurements| + 1
      && e.form.measurements[..|form.measurements|] == form.measurements
      && e.form.measurements[|form.measurements|] == NewField(input)
  {
    if input.labelEn == "" then Editing(form, input)
    else Editing(form.(measurements := form.measurements + [NewField(input)]), BlankField)
  }

  /** `removeMeasurementField(idx)`: only entry `idx` goes, the rest keep their order. */
  function RemoveMeasurementField(form: TemplateForm, idx: int): (f: TemplateForm)
    ensures f.name == form.name && f.category == form.category
    ensures 0 <= idx < |form.measurements| ==>
      |f.measurements| == |form.measurements| - 1
      && (forall i :: 0 <= i < idx ==> f.measurements[i] == form.measurements[i])
      && (forall i :: idx <= i < |f.measurements| ==> f.measurements[i] == form.measurements[i + 1])
    ensures !(0 <= idx < |form.measurements|) ==> f == form
  {
    form.(measurements := RemoveAt(form.measurements, idx))
  }

  /** Removing the field just added gives back the form. */
  lemma RemoveAddedField(form: TemplateForm, input: FieldInput)
    requires input.labelEn != ""
    ensures RemoveMeasurementField(AddMeasurementField(form, input).form, |form.measurements|) == form
  {
    RemoveAtLast(form.measurements, NewField(input));
  }

  /* --------------------------------------------------------------- submit */

  /** A field as the object stored with its template. */
  function FieldValue(f: MeasurementField): Value {
    Obj(map["field" := Str(f.field), "label_en" := Str(f.labelEn), "label_ur" := Str(f.labelUr), "unit" := Str(f.unit)])
  }

  /** `{...formData, _id: Date.now().toString()}` */
  function TemplateRecord(form: TemplateForm, now: nat): (r: Rec)
    ensures KeyOf(r) == Some(NatToString(now))
    ensures Get(r, "measurements") == List(Map(form.measurements, FieldValue))
  {
    map["name" := Str(form.name), "category" := Str(form.category),
        "measurements" := List(Map(form.measurements, FieldValue)), "_id" := Str(NatToString(now))]
  }

  /** `!formData.name || formData.measurements.length === 0` */
  predicate Unfilled(form: TemplateForm) {
    form.name == "" || |form.measurements| == 0
  }

  datatype SubmitNotice = FillAllFields | TemplateCreated | CreateFailed(error: StoreError)

  /**
   * `handleSubmit`: an unnamed or empty template writes nothing; otherwise it
   * is added under the clock reading, and the form is reset once it is saved.
   */
  method Submit(db: TailorDB, form: TemplateForm, now: nat) returns (n: SubmitNotice, form': TemplateForm)
    requires db.Valid()
    modifies db
    ensures db.Valid()
    ensures Unfilled(form) ==> n == FillAllFields && form' == form && db.stores == old(db.stores)
    ensures !Unfilled(form) ==>
      var w := AddWrite(old(db.stores[Templates]), TemplateRecord(form, now), now);
      db.stores == old(db.stores)[Templates := w.table]
      && (w.outcome.Pass? ==> n == TemplateCreated && form' == BlankTemplate)
      && (w.outcome.Fail? ==> n == CreateFailed(w.outcome.error) && form' == form)
  {
    if Unfilled(form) {
      return FillAllFields, form;
    }
    var r := db.Add(Templates, TemplateRecord(form, now), now);
    if r.Pass? {
      n, form' := TemplateCreated, BlankTemplate;
    } else {
      n, form' := CreateFailed(r.error), form;
    }
  }

  /* --------------------------------------------------------------- import */

  /** What reading the chosen file gave: text that is not JSON, or the parsed value. */
  datatype ImportFile = Unparsable | Parsed(value: Value)

  /** `{...template, _id: Date.now().toString()}` */
  function Rekeyed(template: Value, now: nat): (r: Rec)
    ensures KeyOf(r) == Some(NatToString(now))
    ensures forall f :: f != "_id" ==> Get(r, f) == Field(template, f)
  {
    Spread(template)["_id" := Str(NatToString(now))]
  }

  /**
   * The imports in turn, the `i`-th at clock reading `clock[i]`; the first
   * failing add ends the loop and leaves what was added before it.
   */
  function ImportRun(t: Table, items: seq<Value>, clock: seq<nat>): Write
    requires |clock| == |items|
    decreases |items|
  {
    if items == [] then Write(Pass, t)
    else
      var w := AddWrite(t, Rekeyed(items[0], clock[0]), clock[0]);
      if w.outcome.Fail? then w else ImportRun(w.table, items[1..], clock[1..])
  }

  /**
   * When the import succeeds, every template is stored under the id it was
   * given, as a copy of the file's template, and every record that was
   * there before is still there.
   */
  lemma {:induction false} ImportRunStores(t: Table, items: seq<Value>, clock: seq<nat>)
    requires |clock| == |items|
    requires ImportRun(t, items, clock).outcome.Pass?
    ensures var u := ImportRun(t, items, clock).table;
      (forall k :: k in t ==> k in u && u[k] == t[k])
      && (forall i :: 0 <= i < |items| ==>
            NatToString(clock[i]) !in t && NatToString(clock[i]) in u
            && u[NatToString(clock[i])] == Added(Rekeyed(items[i], clock[i]), clock[i]))
    decreases |items|
  {
    if items != [] {
      var k0 := NatToString(clock[0]);
      var w := AddWrite(t, Rekeyed(items[0], clock[0]), clock[0]);
      assert w.table == t[k0 := Added(Rekeyed(items[0], clock[0]), clock[0])] && k0 !in t;
      ImportRunStores(w.table, items[1..], clock[1..]);
      forall i | 1 <= i < |items|
        ensures NatToString(clock[i]) !in t
      {
        assert items[1..][i - 1] == items[i] && clock[1..][i - 1] == clock[i];
      }
    }
  }

  /** Two templates imported within one millisecond get the same id: the second add fails and the import stops. */
  lemma ImportSameMillisecond(t: Table, a: Value, b: Value, now: nat)
    requires NatToString(now) !in t
    ensures ImportRun(t, [a, b], [now, now]).outcome == Fail(DuplicateKey)
  {
    var w := AddWrite(t, Rekeyed(a, now), now);
    assert [a, b][1..] == [b] && [now, now][1..] == [now];
    AddWriteTwice(t, Rekeyed(a, now), Rekeyed(b, now), now, now);
  }

  /** One turn of the import loop. */
  lemma ImportStep(t: Table, items: seq<Value>, clock: seq<nat>, i: nat)
    requires |clock| == |items| && i < |items|
    ensures ImportRun(t, items[i..], clock[i..]) ==
      var w := AddWrite(t, Rekeyed(items[i], clock[i]), clock[i]);
      if w.outcome.Fail? then w else ImportRun(w.table, items[i + 1..], clock[i + 1..])
  {
    assert items[i..][0] == items[i] && items[i..][1..] == items[i + 1..];
    assert clock[i..][0] == clock[i] && clock[i..][1..] == clock[i + 1..];
  }

  datatype ImportNotice = NotAList | Imported | ImportFailed

  /**
   * `handleFileChange`: a file that does not parse fails; a value that is
   * not a list is ignored; each template of a list is added in turn under the
   * clock reading at its turn, and the first failing add fails the import.
   */
  method ImportFromJson(db: TailorDB, file: ImportFile, clock: seq<nat>) returns (n: ImportNotice)
    requires db.Valid()
    requires file.Parsed? && file.value.List? ==> |clock| == |file.value.items|
    modifies db
    ensures db.Valid()
    ensures file.Unparsable? ==> n == ImportFailed && db.stores == old(db.stores)
    ensures file.Parsed? && !file.value.List? ==> n == NotAList && db.stores == old(db.stores)
    ensures file.Parsed? && file.value.List? ==>
      var w := ImportRun(old(db.stores[Templates]), file.value.items, clock);
      n == (if w.outcome.Pass? then Imported else ImportFailed)
      && db.stores == old(db.stores)[Templates := w.table]
  {
    if file.Unparsable? {
      return ImportFailed;
    }
    if !file.value.List? {
      return NotAList;
    }
    var ok := AddTemplates(db, file.value.items, clock);
    n := if ok then Imported else ImportFailed;
  }

  /** Where the import loop stands after `i` templates, all of them added. */
  ghost predicate Importing(start: Db, cur: Db, items: seq<Value>, clock: seq<nat>, i: nat) {
    |clock| == |items| && i <= |items| && Templates in start && Templates in cur
    && cur == start[Templates := cur[Templates]]
    && ImportRun(start[Templates], items, clock) == ImportRun(cur[Templates], items[i..], clock[i..])
  }

  /** One more add keeps the loop on course, or ends the whole import with that add's failure. */
  lemma ImportingStep(start: Db, cur: Db, items: seq<Value>, clock: seq<nat>, i: nat)
    requires Importing(start, cur, items, clock, i) && i < |items|
    ensures var w := AddWrite(cur[Templates], Rekeyed(items[i], clock[i]), clock[i]);
      (w.outcome.Pass? ==> Importing(start, cur[Templates := w.table], items, clock, i + 1))
      && (w.outcome.Fail? ==> ImportRun(start[Templates], items, clock) == w
                              && cur[Templates := w.table] == start[Templates := w.table])
  {
    ImportStep(cur[Templates], items, clock, i);
  }

  /** The loop of `handleFileChange`: each template added in turn, stopping at the first failing add. */
  method AddTemplates(db: TailorDB, items: seq<Value>, clock: seq<nat>) returns (ok: bool)
    requires db.Valid() && |clock| == |items|
    modifies db
    ensures db.Valid()
    ensures var w := ImportRun(old(db.stores[Templates]), items, clock);
      (ok <==> w.outcome.Pass?) && db.stores == old(db.stores)[Templates := w.table]
  {
    var i := 0;
    while i < |items|
      invariant db.Valid() && Importing(old(db.stores), db.stores, items, clock, i)
    {
      ImportingStep(old(db.stores), db.stores, items, clock, i);
      var r := db.Add(Templates, Rekeyed(items[i], clock[i]), clock[i]);
      if r.Fail? {
        return false;
      }
      i := i + 1;
    }
    return true;
  }
}

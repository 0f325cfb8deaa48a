/**
 Preparing a configuration root: settings with obsolete permission keys and profile documents with a
 conflicting schema are replaced, after both have been backed up. Any step may fail; the outcome of
 every step is an input. Validation, parsing and printing are rules given by other components.
 */
module ConfigSetup {
  import opened Wrappers

  datatype File = Settings | Profiles | Secrets

  /** The files of the root, their temporaries, the backups of one run, and everything else. */
  datatype Path =
    | Live(file: File)
    | LiveTemp(file: File)
    | Saved(dir: string, file: File)
    | Errors(dir: string)
    | ErrorsTemp(dir: string)
    | Elsewhere(path: string)

  type Disk = map<Path, string>

  datatype Document = Object(fields: map<string, string>) | NotAnObject(text: string)

  datatype Change = Change(file: File, reason: string)

  datatype Report = Report(backup: Option<string>, changes: seq<Change>)

  datatype Replacement = Replacement(file: File, reason: string, document: Document)

  /** What other components decide; None means that a validator accepts. */
  datatype Rules = Rules(
    parse: string -> Result<Document, string>,
    show: Document -> string,
    showReport: Report -> string,
    defaults: map<string, string>,
    settingsError: Document -> Option<string>,
    separate: (Document, Result<Option<Document>, string>) -> Option<Document>,
    profilesError: Document -> Option<string>,
    storeError: Document -> Option<string>,
    defaultProfiles: Result<Document, string>)

  datatype Saving = SaveDone | SaveFailed(part: Option<string>, error: string)

  /** Writing a temporary and renaming it over the target; the target changes only by the rename. */
  datatype Writing = Written | WriteFailed(temp: Option<string>, error: string)

  datatype Outcomes = Outcomes(
    unreadable: File -> Option<string>,
    dir: Result<string, string>,
    mkdir: Option<string>,
    protect: Option<string>,
    reread: File -> Option<string>,
    save: File -> Saving,
    errors: Writing,
    write: File -> Writing)

  const PERMISSIONS := "agent.permissions."

  predicate IsPermission(key: string) {
    |PERMISSIONS| <= |key| && key[..|PERMISSIONS|] == PERMISSIONS
  }

  /******* What is to be replaced *******/

  function Obsolete(fields: map<string, string>, defaults: map<string, string>): set<string> {
    set k | k in fields && IsPermission(k) && k !in defaults
  }

  /** Obsolete permission keys go, missing permission defaults come; every other key stays. */
  function Cleaned(fields: map<string, string>, defaults: map<string, string>): map<string, string> {
    (map k | k in defaults && IsPermission(k) :: defaults[k])
    + (map k | k in fields && (IsPermission(k) ==> k in defaults) :: fields[k])
  }

  /** The permission defaults among the keys seen so far. */
  function Entered(defaults: map<string, string>, seen: set<string>): map<string, string> {
    map k | k in defaults && k in seen && IsPermission(k) :: defaults[k]
  }

  lemma EnterNext(defaults: map<string, string>, seen: set<string>, key: string, kept: map<string, string>)
    requires key in defaults && key !in seen
    ensures
      var before := Entered(defaults, seen) + kept;
      Entered(defaults, seen + {key}) + kept
        == if IsPermission(key) && key !in before then before[key := defaults[key]] else before
  {
  }

  lemma NothingEntered(defaults: map<string, string>, kept: map<string, string>)
    ensures Entered(defaults, {}) + kept == kept
  {
  }

  lemma CleanedInSteps(fields: map<string, string>, defaults: map<string, string>)
    ensures Entered(defaults, defaults.Keys) + (fields - Obsolete(fields, defaults)) == Cleaned(fields, defaults)
  {
  }

  ghost predicate Contracts(rules: Rules) {
    && (forall d :: rules.parse(rules.show(d)) == Success(d))
    && (forall d: Document :: d.Object? && Obsolete(d.fields, rules.defaults) != {} ==> rules.settingsError(d).Some?)
    && (forall d, s :: rules.profilesError(d).None? ==> rules.separate(d, s) == Some(d))
    && (forall d :: rules.storeError(d).None? ==> rules.profilesError(d).None?)
  }

  function ReadDocument(disk: Disk, rules: Rules, file: File, o: Outcomes): Result<Option<Document>, string> {
    if o.unreadable(file).Some? then Failure(o.unreadable(file).value)
    else if Live(file) !in disk then Success(None)
    else
      match rules.parse(disk[Live(file)])
      case Failure(error) => Failure(error)
      case Success(document) => Success(Some(document))
  }

  function PlanSettings(disk: Disk, rules: Rules, o: Outcomes): Result<seq<Replacement>, string>
    requires Contracts(rules)
  {
    match ReadDocument(disk, rules, Settings, o)
    case Failure(error) => Failure(error)
    case Success(read) =>
      if read.None? || !read.value.Object? || Obsolete(read.value.fields, rules.defaults) == {} then Success([])
      else
        var cleaned := Object(Cleaned(read.value.fields, rules.defaults));
        match rules.settingsError(cleaned)
        case Some(error) => Failure(error)
        case None => Success([Replacement(Settings, rules.settingsError(read.value).value, cleaned)])
  }

  /** Unreadable documents and those that cannot be separated are left alone. */
  function PlanProfiles(disk: Disk, rules: Rules, o: Outcomes): Result<seq<Replacement>, string> {
    match ReadDocument(disk, rules, Profiles, o)
    case Failure(_) => Success([])
    case Success(read) =>
      if read.None? then Success([])
      else
        match rules.separate(read.value, ReadDocument(disk, rules, Secrets, o))
        case None => Success([])
        case Some(document) =>
          match rules.profilesError(document)
          case None => Success([])
          case Some(reason) =>
            match rules.defaultProfiles
            case Failure(error) => Failure(error)
            case Success(defaults) =>
              match rules.storeError(defaults)
              case Some(error) => Failure(error)
              case None => Success([Replacement(Profiles, reason, defaults)])
  }

  function Plan(disk: Disk, rules: Rules, o: Outcomes): Result<seq<Replacement>, string>
    requires Contracts(rules)
  {
    match PlanSettings(disk, rules, o)
    case Failure(error) => Failure(error)
    case Success(settings) =>
      match PlanProfiles(disk, rules, o)
      case Failure(error) => Failure(error)
      case Success(profiles) => Success(settings + profiles)
  }

  /******* Backing up and replacing *******/

  function PutSome(disk: Disk, path: Path, content: Option<string>): Disk {
    if content.None? then disk else disk[path := content.value]
  }

  /** A backup is a new file: an existing one is never opened for writing. */
  function Save(disk: Disk, dir: string, file: File, o: Outcomes): (Disk, Option<string>) {
    if o.reread(file).Some? then (disk, o.reread(file))
    else if Live(file) !in disk then (disk, Some("not found"))
    else if Saved(dir, file) in disk then (disk, Some("already exists"))
    else
      match o.save(file)
      case SaveDone => (disk[Saved(dir, file) := disk[Live(file)]], None)
      case SaveFailed(part, error) => (PutSome(disk, Saved(dir, file), part), Some(error))
  }

  function SaveAll(disk: Disk, dir: string, plan: seq<Replacement>, o: Outcomes): (Disk, Option<string>)
    decreases |plan|
  {
    if plan == [] then (disk, None)
    else
      var (saved, failure) := Save(disk, dir, plan[0].file, o);
      if failure.Some? then (saved, failure) else SaveAll(saved, dir, plan[1..], o)
  }

  function WriteJson(disk: Disk, target: Path, temp: Path, content: string, writing: Writing): (Disk, Option<string>) {
    match writing
    case Written => ((disk - {temp})[target := content], None)
    case WriteFailed(part, error) => (PutSome(disk, temp, part), Some(error))
  }

  function WriteAll(disk: Disk, rules: Rules, plan: seq<Replacement>, o: Outcomes): (Disk, Option<string>)
    decreases |plan|
  {
    if plan == [] then (disk, None)
    else
      var file := plan[0].file;
      var (written, failure) := WriteJson(disk, Live(file), LiveTemp(file), rules.show(plan[0].document), o.write(file));
      if failure.Some? then (written, failure) else WriteAll(written, rules, plan[1..], o)
  }

  function Changes(plan: seq<Replacement>): seq<Change> {
    seq(|plan|, i requires 0 <= i < |plan| => Change(plan[i].file, plan[i].reason))
  }

  function Apply(disk: Disk, rules: Rules, dir: string, plan: seq<Replacement>, o: Outcomes): (Disk, Result<Report, string>) {
    var report := Report(Some(dir), Changes(plan));
    var (saved, saveFailure) := SaveAll(disk, dir, plan, o);
    if saveFailure.Some? then (saved, Failure(saveFailure.value))
    else
      var (noted, noteFailure) := WriteJson(saved, Errors(dir), ErrorsTemp(dir), rules.showReport(report), o.errors);
      if noteFailure.Some? then (noted, Failure(noteFailure.value))
      else
        var (written, failure) := WriteAll(noted, rules, plan, o);
        (written, if failure.Some? then Failure(failure.value) else Success(report))
  }

  function Prepare(disk: Disk, rules: Rules, o: Outcomes): (Disk, Result<Report, string>)
    requires Contracts(rules)
  {
    match Plan(disk, rules, o)
    case Failure(error) => (disk, Failure(error))
    case Success(plan) =>
      if plan == [] then (disk, Success(Report(None, [])))
      else if o.dir.Failure? then (disk, Failure(o.dir.error))
      else if o.mkdir.Some? then (disk, Failure(o.mkdir.value))
      else if o.protect.Some? then (disk, Failure(o.protect.value))
      else Apply(disk, rules, o.dir.value, plan, o)
  }

  /******* The preparation *******/

  class ConfigRoot {
    var disk: Disk
    const rules: Rules

    constructor (disk: Disk, rules: Rules)
      ensures this.disk == disk && this.rules == rules
    {
      this.disk, this.rules := disk, rules;
    }

    method RemoveAll(fields: map<string, string>, obsolete: set<string>) returns (left: map<string, string>)
      ensures left == fields - obsolete
    {
      left := fields;
      var keys := obsolete;
      while keys != {}
        invariant keys <= obsolete && left == fields - (obsolete - keys)
        decreases |keys|
      {
        var key :| key in keys;
        left := left - {key};
        keys := keys - {key};
      }
    }

    method EnterDefaults(kept: map<string, string>) returns (fields: map<string, string>)
      ensures fields == Entered(rules.defaults, rules.defaults.Keys) + kept
    {
      hide Entered, IsPermission;
      NothingEntered(rules.defaults, kept);
      fields := kept;
      var keys := rules.defaults.Keys;
      ghost var seen: set<string> := {};
      while keys != {}
        invariant keys <= rules.defaults.Keys && seen == rules.defaults.Keys - keys
        invariant fields == Entered(rules.defaults, seen) + kept
        decreases |keys|
      {
        var key :| key in keys;
        EnterNext(rules.defaults, seen, key, kept);
        if IsPermission(key) && key !in fields {
          fields := fields[key := rules.defaults[key]];
        }
        keys := keys - {key};
        seen := seen + {key};
      }
      assert seen == rules.defaults.Keys;
    }

    /** Edits the settings object: removes obsolete keys, then enters missing permission defaults. */
    method CleanSettings(fields: map<string, string>) returns (cleaned: map<string, string>)
      ensures cleaned == Cleaned(fields, rules.defaults)
    {
      CleanedInSteps(fields, rules.defaults);
      hide Entered, IsPermission, Obsolete, Cleaned;
      var left := RemoveAll(fields, Obsolete(fields, rules.defaults));
      cleaned := EnterDefaults(left);
    }

    method SaveOriginals(dir: string, plan: seq<Replacement>, o: Outcomes) returns (changes: seq<Change>, failure: Option<string>)
      modifies this
      ensures (disk, failure) == SaveAll(old(disk), dir, plan, o)
      ensures failure.None? ==> changes == Changes(plan)
    {
      changes := [];
      var i := 0;
      while i < |plan|
        invariant i <= |plan| && changes == Changes(plan[..i])
        invariant SaveAll(old(disk), dir, plan, o) == SaveAll(disk, dir, plan[i..], o)
      {
        assert plan[i..][0] == plan[i] && plan[i..][1..] == plan[i + 1..];
        var step := Save(disk, dir, plan[i].file, o);
        disk := step.0;
        if step.1.Some? {
          return changes, step.1;
        }
        changes := changes + [Change(plan[i].file, plan[i].reason)];
        assert plan[..i + 1] == plan[..i] + [plan[i]];
        i := i + 1;
      }
      assert plan[..|plan|] == plan;
      return changes, None;
    }

    method ReplaceFiles(plan: seq<Replacement>, o: Outcomes) returns (failure: Option<string>)
      modifies this
      ensures (disk, failure) == WriteAll(old(disk), rules, plan, o)
    {
      var i := 0;
      while i < |plan|
        invariant i <= |plan|
        invariant WriteAll(old(disk), rules, plan, o) == WriteAll(disk, rules, plan[i..], o)
      {
        assert plan[i..][0] == plan[i] && plan[i..][1..] == plan[i + 1..];
        var file := plan[i].file;
        var step := WriteJson(disk, Live(file), LiveTemp(file), rules.show(plan[i].document), o.write(file));
        disk := step.0;
        if step.1.Some? {
          return step.1;
        }
        i := i + 1;
      }
      return None;
    }

    method PrepareLocked(o: Outcomes) returns (result: Result<Report, string>)
      requires Contracts(rules)
      modifies this
      ensures (disk, result) == Prepare(old(disk), rules, o)
    {
      var replacements: seq<Replacement> := [];
      var settings := ReadDocument(disk, rules, Settings, o);
      if settings.Failure? {
        return Failure(settings.error);
      }
      if settings.value.Some? && settings.value.value.Object? {
        var document := settings.value.value;
        if Obsolete(document.fields, rules.defaults) != {} {
          var reason := rules.settingsError(document).value;
          var fields := CleanSettings(document.fields);
          var refused := rules.settingsError(Object(fields));
          if refused.Some? {
            return Failure(refused.value);
          }
          replacements := [Replacement(Settings, reason, Object(fields))];
        }
      }
      var profiles := PlanProfiles(disk, rules, o);
      if profiles.Failure? {
        return Failure(profiles.error);
      }
      replacements := replacements + profiles.value;
      if replacements == [] {
        return Success(Report(None, []));
      }
      if o.dir.Failure? {
        return Failure(o.dir.error);
      }
      if o.mkdir.Some? {
        return Failure(o.mkdir.value);
      }
      if o.protect.Some? {
        return Failure(o.protect.value);
      }
      var dir := o.dir.value;
      var changes, saveFailure := SaveOriginals(dir, replacements, o);
      if saveFailure.Some? {
        return Failure(saveFailure.value);
      }
      var report := Report(Some(dir), changes);
      var noted := WriteJson(disk, Errors(dir), ErrorsTemp(dir), rules.showReport(report), o.errors);
      disk := noted.0;
      if noted.1.Some? {
        return Failure(noted.1.value);
      }
      var failure := ReplaceFiles(replacements, o);
      return if failure.Some? then Failure(failure.value) else Success(report);
    }
  }

  /******* What cleaning keeps *******/

  /** Nothing obsolete is left, every permission default is present, and every other key keeps its value. */
  lemma CleaningMeaning(fields: map<string, string>, defaults: map<string, string>)
    ensures
      var cleaned := Cleaned(fields, defaults);
      && Obsolete(cleaned, defaults) == {}
      && (forall k :: k in fields && k !in Obsolete(fields, defaults) ==> k in cleaned && cleaned[k] == fields[k])
      && (forall k :: k in cleaned && k !in fields ==> k in defaults && IsPermission(k) && cleaned[k] == defaults[k])
      && (forall k :: k in defaults && IsPermission(k) ==> k in cleaned)
      && Cleaned(cleaned, defaults) == cleaned
  {
  }

  /******* Every failure point *******/

  predicate Holds(disk: Disk, path: Path, content: string) {
    path in disk && disk[path] == content
  }

  predicate SameAt(a: Disk, b: Disk, path: Path) {
    (path in a <==> path in b) && (path in a ==> a[path] == b[path])
  }

  ghost predicate Plans(plan: seq<Replacement>) {
    && (forall i :: 0 <= i < |plan| ==> plan[i].file in {Settings, Profiles})
    && (forall i, j :: 0 <= i < j < |plan| ==> plan[i].file != plan[j].file)
  }

  ghost predicate Planned(plan: seq<Replacement>, file: File) {
    exists i :: 0 <= i < |plan| && plan[i].file == file
  }

  /** Backups change only the new backup files: complete for the whole plan unless one fails. */
  lemma {:induction false} SaveAllMeaning(disk: Disk, dir: string, plan: seq<Replacement>, o: Outcomes)
    requires Plans(plan)
    ensures
      var (saved, failure) := SaveAll(disk, dir, plan, o);
      && (forall p :: SameAt(disk, saved, p) || (p.Saved? && p !in disk && p.dir == dir && Planned(plan, p.file)))
      && (failure.None? ==> forall f :: Planned(plan, f) ==> Live(f) in disk && Holds(saved, Saved(dir, f), disk[Live(f)]))
    decreases |plan|
  {
    if plan != [] {
      var (first, failure) := Save(disk, dir, plan[0].file, o);
      assert forall p :: SameAt(disk, first, p) || (p == Saved(dir, plan[0].file) && p !in disk);
      assert Planned(plan, plan[0].file);
      if failure.None? {
        SaveAllMeaning(first, dir, plan[1..], o);
        assert Holds(first, Saved(dir, plan[0].file), disk[Live(plan[0].file)]);
      }
    }
  }

  /** Replacing changes only planned files and temporaries; each file at once, to its new document. */
  lemma {:induction false} WriteAllMeaning(disk: Disk, rules: Rules, plan: seq<Replacement>, o: Outcomes)
    requires Plans(plan)
    ensures
      var (written, failure) := WriteAll(disk, rules, plan, o);
      && (forall p :: SameAt(disk, written, p) || p.LiveTemp? || (p.Live? && Planned(plan, p.file)))
      && (forall i :: 0 <= i < |plan| ==>
            SameAt(disk, written, Live(plan[i].file)) || Holds(written, Live(plan[i].file), rules.show(plan[i].document)))
      && (failure.None? ==> forall i :: 0 <= i < |plan| ==> Holds(written, Live(plan[i].file), rules.show(plan[i].document)))
    decreases |plan|
  {
    if plan != [] {
      var file := plan[0].file;
      var (first, failure) := WriteJson(disk, Live(file), LiveTemp(file), rules.show(plan[0].document), o.write(file));
      assert forall p :: SameAt(disk, first, p) || p == LiveTemp(file) || p == Live(file);
      WriteAllMeaning(first, rules, plan[1..], o);
    }
  }

  lemma PlanMeaning(disk: Disk, rules: Rules, o: Outcomes)
    requires Contracts(rules) && Plan(disk, rules, o).Success?
    ensures
      var plan := Plan(disk, rules, o).value;
      && Plans(plan)
      && (Planned(plan, Settings) <==> PlanSettings(disk, rules, o).value != [])
      && (Planned(plan, Profiles) <==> PlanProfiles(disk, rules, o).value != [])
      && !Planned(plan, Secrets)
  {
    var settings, profiles := PlanSettings(disk, rules, o).value, PlanProfiles(disk, rules, o).value;
    var plan := settings + profiles;
    assert settings != [] ==> |settings| == 1 && settings[0].file == Settings && plan[0] == settings[0];
    assert profiles != [] ==> |profiles| == 1 && profiles[0].file == Profiles && plan[|settings|] == profiles[0];
    hide PlanSettings, PlanProfiles, Contracts;
    if settings != [] {
      assert plan[0].file == Settings;
    }
    if profiles != [] {
      assert plan[|settings|].file == Profiles;
    }
  }

  /** What one application of a plan leaves, wherever it stopped. */
  ghost predicate Applied(disk: Disk, after: Disk, rules: Rules, dir: string, plan: seq<Replacement>, done: bool) {
    && (forall p :: SameAt(disk, after, p) || p == Errors(dir) || p == ErrorsTemp(dir) || p.LiveTemp?
                 || (p.Saved? && p !in disk && p.dir == dir) || (p.Live? && Planned(plan, p.file)))
    && ((forall f :: SameAt(disk, after, Live(f))) || OriginalsSaved(disk, after, dir, plan))
    && (done ==> forall i :: 0 <= i < |plan| ==> Holds(after, Live(plan[i].file), rules.show(plan[i].document)))
    && (forall i :: 0 <= i < |plan| ==>
          SameAt(disk, after, Live(plan[i].file)) || Holds(after, Live(plan[i].file), rules.show(plan[i].document)))
  }

  /** Every planned file has its bytes in the backup, and the reasons are recorded beside them. */
  ghost predicate OriginalsSaved(disk: Disk, after: Disk, dir: string, plan: seq<Replacement>) {
    Errors(dir) in after
    && forall f :: Planned(plan, f) ==> Live(f) in disk && Holds(after, Saved(dir, f), disk[Live(f)])
  }

  ghost predicate OnlyBackups(disk: Disk, saved: Disk, dir: string, plan: seq<Replacement>) {
    forall p :: SameAt(disk, saved, p) || (p.Saved? && p !in disk && p.dir == dir && Planned(plan, p.file))
  }

  /** Replacing after every backup and the record of reasons are complete. */
  lemma ReplacingMeaning(disk: Disk, saved: Disk, noted: Disk, rules: Rules, dir: string, plan: seq<Replacement>, o: Outcomes)
    requires Plans(plan) && OnlyBackups(disk, saved, dir, plan) && OriginalsSaved(disk, noted, dir, plan)
    requires forall p :: SameAt(saved, noted, p) || p == Errors(dir) || p == ErrorsTemp(dir)
    ensures
      var (after, failure) := WriteAll(noted, rules, plan, o);
      Applied(disk, after, rules, dir, plan, failure.None?)
  {
    hide Plans, Planned, WriteAll;
    WriteAllMeaning(noted, rules, plan, o);
    var after := WriteAll(noted, rules, plan, o).0;
    forall i | 0 <= i < |plan| ensures
      SameAt(disk, after, Live(plan[i].file)) || Holds(after, Live(plan[i].file), rules.show(plan[i].document))
    {
      assert SameAt(disk, saved, Live(plan[i].file)) && SameAt(saved, noted, Live(plan[i].file));
    }
    forall f | Planned(plan, f) ensures Live(f) in disk && Holds(after, Saved(dir, f), disk[Live(f)]) {
      assert SameAt(noted, after, Saved(dir, f));
    }
    assert SameAt(noted, after, Errors(dir));
    forall p ensures SameAt(disk, after, p) || p == Errors(dir) || p == ErrorsTemp(dir) || p.LiveTemp?
                  || (p.Saved? && p !in disk && p.dir == dir) || (p.Live? && Planned(plan, p.file))
    {
      assert SameAt(disk, saved, p) || p.Saved?;
      assert SameAt(saved, noted, p) || p == Errors(dir) || p == ErrorsTemp(dir);
      assert SameAt(noted, after, p) || p.LiveTemp? || (p.Live? && Planned(plan, p.file));
    }
  }

  lemma ApplyMeaning(disk: Disk, rules: Rules, dir: string, plan: seq<Replacement>, o: Outcomes)
    requires Plans(plan) && plan != []
    ensures
      var (after, result) := Apply(disk, rules, dir, plan, o);
      Applied(disk, after, rules, dir, plan, result.Success?)
  {
    hide SaveAll, WriteAll, Plans, Planned;
    SaveAllMeaning(disk, dir, plan, o);
    var (saved, saveFailure) := SaveAll(disk, dir, plan, o);
    if saveFailure.None? {
      var report := Report(Some(dir), Changes(plan));
      var (noted, noteFailure) := WriteJson(saved, Errors(dir), ErrorsTemp(dir), rules.showReport(report), o.errors);
      assert forall p :: SameAt(saved, noted, p) || p == Errors(dir) || p == ErrorsTemp(dir);
      if noteFailure.None? {
        forall f | Planned(plan, f) ensures Holds(noted, Saved(dir, f), disk[Live(f)]) {
          assert SameAt(saved, noted, Saved(dir, f));
        }
        ReplacingMeaning(disk, saved, noted, rules, dir, plan, o);
        assert Apply(disk, rules, dir, plan, o).0 == WriteAll(noted, rules, plan, o).0;
      } else {
        forall f ensures SameAt(disk, noted, Live(f)) {
          assert SameAt(disk, saved, Live(f)) && SameAt(saved, noted, Live(f));
        }
        forall p ensures SameAt(disk, noted, p) || p == Errors(dir) || p == ErrorsTemp(dir) || (p.Saved? && p !in disk && p.dir == dir) {
          assert SameAt(disk, saved, p) || p.Saved?;
          assert SameAt(saved, noted, p) || p == Errors(dir) || p == ErrorsTemp(dir);
        }
        assert Applied(disk, noted, rules, dir, plan, false);
      }
    }
  }

  /******* The guarantees of one preparation *******/

  /**
   At every failure point each original file is unchanged or its bytes are in this run's backup. When
   any file has changed, every planned original and the record of reasons are already backed up.
   */
  lemma OriginalsAreSafe(disk: Disk, rules: Rules, o: Outcomes)
    requires Contracts(rules)
    ensures
      var (after, _) := Prepare(disk, rules, o);
      && (forall f :: SameAt(disk, after, Live(f)) ||
            (o.dir.Success? && Live(f) in disk && Holds(after, Saved(o.dir.value, f), disk[Live(f)])))
      && SameAt(disk, after, Live(Secrets))
      && ((forall f :: SameAt(disk, after, Live(f))) ||
            (Plan(disk, rules, o).Success? && o.dir.Success? && OriginalsSaved(disk, after, o.dir.value, Plan(disk, rules, o).value)))
  {
    hide Contracts, Plan, Apply, Planned;
    if Plan(disk, rules, o).Success? {
      var plan := Plan(disk, rules, o).value;
      PlanMeaning(disk, rules, o);
      if plan != [] && o.dir.Success? {
        ApplyMeaning(disk, rules, o.dir.value, plan, o);
      }
    }
  }

  /** No existing backup is ever overwritten, and nothing outside the root's own files is touched. */
  lemma OtherFilesUntouched(disk: Disk, rules: Rules, o: Outcomes, path: Path)
    requires Contracts(rules)
    requires path.Elsewhere? || path == Live(Secrets) || (path.Saved? && path in disk)
          || (path.Saved? && o.dir != Success(path.dir))
    ensures SameAt(disk, Prepare(disk, rules, o).0, path)
  {
    hide Contracts, Plan, Apply, Planned;
    if Plan(disk, rules, o).Success? {
      var plan := Plan(disk, rules, o).value;
      PlanMeaning(disk, rules, o);
      if plan != [] && o.dir.Success? {
        ApplyMeaning(disk, rules, o.dir.value, plan, o);
      }
    }
  }

  /** Success with an empty plan changes nothing; otherwise every planned file holds its new document. */
  lemma SuccessReplacesAll(disk: Disk, rules: Rules, o: Outcomes)
    requires Contracts(rules) && Prepare(disk, rules, o).1.Success?
    ensures Plan(disk, rules, o).Success?
    ensures
      var plan := Plan(disk, rules, o).value;
      var after := Prepare(disk, rules, o).0;
      && (plan == [] ==> after == disk)
      && (forall i :: 0 <= i < |plan| ==> Holds(after, Live(plan[i].file), rules.show(plan[i].document)))
      && (forall f :: !Planned(plan, f) ==> SameAt(disk, after, Live(f)))
  {
    hide Contracts, Plan, Apply, Planned;
    var plan := Plan(disk, rules, o).value;
    PlanMeaning(disk, rules, o);
    if plan != [] {
      ApplyMeaning(disk, rules, o.dir.value, plan, o);
    }
  }

  /** After a successful preparation, a second one finds the same files readable and changes nothing. */
  lemma SecondRunChangesNothing(disk: Disk, rules: Rules, o: Outcomes, again: Outcomes)
    requires Contracts(rules) && Prepare(disk, rules, o).1.Success? && again.unreadable == o.unreadable
    ensures Prepare(Prepare(disk, rules, o).0, rules, again) == (Prepare(disk, rules, o).0, Success(Report(None, [])))
  {
    var after := Prepare(disk, rules, o).0;
    SuccessReplacesAll(disk, rules, o);
    PlanMeaning(disk, rules, o);
    OriginalsAreSafe(disk, rules, o);
    var settings, profiles := PlanSettings(disk, rules, o).value, PlanProfiles(disk, rules, o).value;
    var plan := Plan(disk, rules, o).value;
    PlanParts(disk, rules, o);
    assert settings != [] ==> plan[0] == settings[0];
    assert profiles != [] ==> plan[|settings|] == profiles[0];
    hide Contracts, PlanSettings, PlanProfiles, Planned, Plans, Apply, Holds, SameAt;
  }

  lemma PlanParts(disk: Disk, rules: Rules, o: Outcomes)
    requires Contracts(rules) && Plan(disk, rules, o).Success?
    ensures PlanSettings(disk, rules, o).Success? && PlanProfiles(disk, rules, o).Success?
    ensures
      var settings, profiles := PlanSettings(disk, rules, o).value, PlanProfiles(disk, rules, o).value;
      && Plan(disk, rules, o).value == settings + profiles
      && (settings != [] ==> |settings| == 1 && settings[0].file == Settings)
      && (profiles != [] ==> |profiles| == 1 && profiles[0].file == Profiles)
  {
  }

  /******* What is found and what is left on the disk *******/

  predicate Obsoletes(key: string, defaults: map<string, string>) {
    "agent.permissions." <= key && key !in defaults
  }

  /** Readable settings with these fields, one of them an obsolete permission. */
  ghost predicate SettingsConflict(disk: Disk, rules: Rules, o: Outcomes, fields: map<string, string>) {
    && o.unreadable(Settings).None? && Live(Settings) in disk
    && rules.parse(disk[Live(Settings)]) == Success(Object(fields))
    && exists k :: k in fields && Obsoletes(k, rules.defaults)
  }

  ghost predicate SomeSettingsConflict(disk: Disk, rules: Rules, o: Outcomes) {
    exists fields :: SettingsConflict(disk, rules, o, fields)
  }

  /** What reading a file gives: nothing when it is absent. */
  ghost predicate Reads(disk: Disk, rules: Rules, o: Outcomes, file: File, read: Result<Option<Document>, string>) {
    match o.unreadable(file)
    case Some(error) => read == Failure(error)
    case None =>
      if Live(file) !in disk then read == Success(None)
      else match rules.parse(disk[Live(file)])
           case Failure(error) => read == Failure(error)
           case Success(document) => read == Success(Some(document))
  }

  /** Readable profiles whose connections can be separated, and which are then refused for this reason. */
  ghost predicate ProfilesConflict(disk: Disk, rules: Rules, o: Outcomes, reason: string) {
    exists document, secrets, separated ::
      && Reads(disk, rules, o, Profiles, Success(Some(document))) && Reads(disk, rules, o, Secrets, secrets)
      && rules.separate(document, secrets) == Some(separated) && rules.profilesError(separated) == Some(reason)
  }

  ghost predicate SomeProfilesConflict(disk: Disk, rules: Rules, o: Outcomes) {
    exists reason :: ProfilesConflict(disk, rules, o, reason)
  }

  /** No obsolete permission, every permission default, and every other key, kept as it was. */
  ghost predicate IsCleaned(fields: map<string, string>, defaults: map<string, string>, cleaned: map<string, string>) {
    && (forall k :: k in cleaned ==> !Obsoletes(k, defaults))
    && (forall k :: k in fields && !Obsoletes(k, defaults) ==> k in cleaned && cleaned[k] == fields[k])
    && (forall k :: k in defaults && "agent.permissions." <= k && k !in fields ==> k in cleaned && cleaned[k] == defaults[k])
    && (forall k :: k in cleaned && k !in fields ==> k in defaults && "agent.permissions." <= k)
  }

  lemma PermissionKeys(key: string)
    ensures IsPermission(key) <==> "agent.permissions." <= key
  {
  }

  lemma ObsoleteExactly(fields: map<string, string>, defaults: map<string, string>)
    ensures forall k :: k in Obsolete(fields, defaults) <==> k in fields && Obsoletes(k, defaults)
    ensures Obsolete(fields, defaults) != {} <==> exists k :: k in fields && Obsoletes(k, defaults)
  {
    forall k: string ensures IsPermission(k) <==> "agent.permissions." <= k {
      PermissionKeys(k);
    }
    hide IsPermission;
    if k :| k in fields && Obsoletes(k, defaults) {
      assert k in Obsolete(fields, defaults);
    }
  }

  lemma CleanedIsCleaned(fields: map<string, string>, defaults: map<string, string>)
    ensures IsCleaned(fields, defaults, Cleaned(fields, defaults))
  {
    forall k: string ensures IsPermission(k) <==> "agent.permissions." <= k {
      PermissionKeys(k);
    }
    hide IsPermission;
  }

  lemma CleanedIsUnique(fields: map<string, string>, defaults: map<string, string>, a: map<string, string>, b: map<string, string>)
    requires IsCleaned(fields, defaults, a) && IsCleaned(fields, defaults, b)
    ensures a == b
  {
    forall k | k in a ensures k in b && b[k] == a[k] {
      OneCleaned(fields, defaults, a, b, k);
    }
    forall k | k in b ensures k in a {
      OneCleaned(fields, defaults, b, a, k);
    }
  }

  lemma OneCleaned(fields: map<string, string>, defaults: map<string, string>, a: map<string, string>, b: map<string, string>, k: string)
    requires IsCleaned(fields, defaults, a) && IsCleaned(fields, defaults, b) && k in a
    ensures k in b && b[k] == a[k]
  {
    assert !Obsoletes(k, defaults);
    if k in fields {
      assert b[k] == fields[k];
    } else {
      assert a[k] == defaults[k];
    }
  }

  lemma CleanedExactly(fields: map<string, string>, defaults: map<string, string>, cleaned: map<string, string>)
    ensures cleaned == Cleaned(fields, defaults) <==> IsCleaned(fields, defaults, cleaned)
  {
    CleanedIsCleaned(fields, defaults);
    hide Cleaned, IsCleaned;
    if IsCleaned(fields, defaults, cleaned) {
      CleanedIsUnique(fields, defaults, cleaned, Cleaned(fields, defaults));
    }
  }

  lemma ReadExactly(disk: Disk, rules: Rules, o: Outcomes, file: File, read: Result<Option<Document>, string>)
    ensures read == ReadDocument(disk, rules, file, o) <==> Reads(disk, rules, o, file, read)
  {
  }

  function CleanedSettings(rules: Rules, fields: map<string, string>): Result<seq<Replacement>, string>
    requires rules.settingsError(Object(fields)).Some?
  {
    var cleaned := Object(Cleaned(fields, rules.defaults));
    match rules.settingsError(cleaned)
    case Some(error) => Failure(error)
    case None => Success([Replacement(Settings, rules.settingsError(Object(fields)).value, cleaned)])
  }

  function FreshProfiles(rules: Rules, reason: string): Result<seq<Replacement>, string> {
    match rules.defaultProfiles
    case Failure(error) => Failure(error)
    case Success(defaults) =>
      match rules.storeError(defaults)
      case Some(error) => Failure(error)
      case None => Success([Replacement(Profiles, reason, defaults)])
  }

  lemma SettingsPlan(disk: Disk, rules: Rules, o: Outcomes)
    requires Contracts(rules)
    ensures ReadDocument(disk, rules, Settings, o).Failure? ==>
      PlanSettings(disk, rules, o) == Failure(ReadDocument(disk, rules, Settings, o).error)
    ensures ReadDocument(disk, rules, Settings, o).Success? && !SomeSettingsConflict(disk, rules, o) ==>
      PlanSettings(disk, rules, o) == Success([])
    ensures forall fields :: SettingsConflict(disk, rules, o, fields) ==>
      rules.settingsError(Object(fields)).Some? && PlanSettings(disk, rules, o) == CleanedSettings(rules, fields)
  {
    var read := ReadDocument(disk, rules, Settings, o);
    if read.Success? && read.value.Some? && read.value.value.Object? {
      var fields := read.value.value.fields;
      ObsoleteExactly(fields, rules.defaults);
      assert SettingsConflict(disk, rules, o, fields) <==> Obsolete(fields, rules.defaults) != {};
    }
    forall fields | SettingsConflict(disk, rules, o, fields) ensures read == Success(Some(Object(fields)))
      && Obsolete(fields, rules.defaults) != {}
    {
      ObsoleteExactly(fields, rules.defaults);
    }
  }

  lemma ProfilesPlan(disk: Disk, rules: Rules, o: Outcomes)
    ensures !SomeProfilesConflict(disk, rules, o) ==> PlanProfiles(disk, rules, o) == Success([])
    ensures forall reason :: ProfilesConflict(disk, rules, o, reason) ==>
      PlanProfiles(disk, rules, o) == FreshProfiles(rules, reason)
  {
    var read, secrets := ReadDocument(disk, rules, Profiles, o), ReadDocument(disk, rules, Secrets, o);
    ReadExactly(disk, rules, o, Profiles, read);
    ReadExactly(disk, rules, o, Secrets, secrets);
    if read.Success? && read.value.Some? {
      var separated := rules.separate(read.value.value, secrets);
      if separated.Some? && rules.profilesError(separated.value).Some? {
        assert ProfilesConflict(disk, rules, o, rules.profilesError(separated.value).value);
      }
    }
    forall reason | ProfilesConflict(disk, rules, o, reason) ensures
      read.Success? && read.value.Some? && rules.separate(read.value.value, secrets).Some?
      && rules.profilesError(rules.separate(read.value.value, secrets).value) == Some(reason)
    {
      var document, other, separated :|
        && Reads(disk, rules, o, Profiles, Success(Some(document))) && Reads(disk, rules, o, Secrets, other)
        && rules.separate(document, other) == Some(separated) && rules.profilesError(separated) == Some(reason);
      ReadExactly(disk, rules, o, Profiles, Success(Some(document)));
      ReadExactly(disk, rules, o, Secrets, other);
    }
  }

  /**
   After success, settings that held an obsolete permission parse to their cleaned object, and the report
   names them with the validator's reason; all other settings are as they were, and not reported.
   */
  lemma SettingsAfterSuccess(disk: Disk, rules: Rules, o: Outcomes)
    requires Contracts(rules) && Prepare(disk, rules, o).1.Success?
    ensures
      var (after, result) := Prepare(disk, rules, o);
      && (forall fields :: SettingsConflict(disk, rules, o, fields) ==>
            && Live(Settings) in after
            && (exists cleaned :: rules.parse(after[Live(Settings)]) == Success(Object(cleaned))
                               && IsCleaned(fields, rules.defaults, cleaned))
            && rules.settingsError(Object(fields)).Some?
            && Change(Settings, rules.settingsError(Object(fields)).value) in result.value.changes)
      && (!SomeSettingsConflict(disk, rules, o) ==>
            SameAt(disk, after, Live(Settings)) && forall c :: c in result.value.changes ==> c.file != Settings)
  {
    var (after, result) := Prepare(disk, rules, o);
    SuccessReplacesAll(disk, rules, o);
    PlanMeaning(disk, rules, o);
    PlanParts(disk, rules, o);
    SettingsPlan(disk, rules, o);
    ReportOfSuccess(disk, rules, o);
    var plan := Plan(disk, rules, o).value;
    hide Prepare, Plan, PlanSettings, PlanProfiles, SettingsConflict, SomeSettingsConflict, IsCleaned, Plans;
    forall fields | SettingsConflict(disk, rules, o, fields) ensures
      && Live(Settings) in after
      && (exists cleaned :: rules.parse(after[Live(Settings)]) == Success(Object(cleaned))
                         && IsCleaned(fields, rules.defaults, cleaned))
      && rules.settingsError(Object(fields)).Some?
      && Change(Settings, rules.settingsError(Object(fields)).value) in result.value.changes
    {
      var cleaned := Cleaned(fields, rules.defaults);
      CleanedExactly(fields, rules.defaults, cleaned);
      assert plan[0] == Replacement(Settings, rules.settingsError(Object(fields)).value, Object(cleaned));
      assert Holds(after, Live(Settings), rules.show(Object(cleaned)));
      assert result.value.changes[0] == Change(Settings, rules.settingsError(Object(fields)).value);
    }
    if !SomeSettingsConflict(disk, rules, o) {
      assert !Planned(plan, Settings);
      forall c | c in result.value.changes ensures c.file != Settings {
        var i :| 0 <= i < |plan| && c == Change(plan[i].file, plan[i].reason);
      }
    }
  }

  /** The report lists the plan's files and reasons, and names a backup unless there are none. */
  lemma ReportOfSuccess(disk: Disk, rules: Rules, o: Outcomes)
    requires Contracts(rules) && Prepare(disk, rules, o).1.Success?
    ensures Plan(disk, rules, o).Success?
    ensures
      var (after, result) := Prepare(disk, rules, o);
      var plan := Plan(disk, rules, o).value;
      && |result.value.changes| == |plan|
      && (forall i :: 0 <= i < |plan| ==> result.value.changes[i] == Change(plan[i].file, plan[i].reason))
      && (plan == [] <==> result.value.backup.None?)
  {
    hide Contracts, Plan, SaveAll, WriteAll;
  }

  /** The same for profiles: refused ones are replaced by the default document, all others are as they were. */
  lemma ProfilesAfterSuccess(disk: Disk, rules: Rules, o: Outcomes)
    requires Contracts(rules) && Prepare(disk, rules, o).1.Success?
    ensures
      var (after, result) := Prepare(disk, rules, o);
      && (forall reason :: ProfilesConflict(disk, rules, o, reason) ==>
            && Live(Profiles) in after && rules.defaultProfiles.Success?
            && rules.parse(after[Live(Profiles)]) == rules.defaultProfiles
            && Change(Profiles, reason) in result.value.changes)
      && (!SomeProfilesConflict(disk, rules, o) ==>
            SameAt(disk, after, Live(Profiles)) && forall c :: c in result.value.changes ==> c.file != Profiles)
  {
    var (after, result) := Prepare(disk, rules, o);
    SuccessReplacesAll(disk, rules, o);
    PlanMeaning(disk, rules, o);
    PlanParts(disk, rules, o);
    ProfilesPlan(disk, rules, o);
    ReportOfSuccess(disk, rules, o);
    var settings, profiles := PlanSettings(disk, rules, o).value, PlanProfiles(disk, rules, o).value;
    var plan := Plan(disk, rules, o).value;
    hide Prepare, Plan, PlanSettings, PlanProfiles, ProfilesConflict, SomeProfilesConflict, Plans;
    forall reason | ProfilesConflict(disk, rules, o, reason) ensures
      && Live(Profiles) in after && rules.defaultProfiles.Success?
      && rules.parse(after[Live(Profiles)]) == rules.defaultProfiles
      && Change(Profiles, reason) in result.value.changes
    {
      var defaults := rules.defaultProfiles.value;
      assert plan[|settings|] == Replacement(Profiles, reason, defaults);
      assert Holds(after, Live(Profiles), rules.show(defaults));
      assert result.value.changes[|settings|] == Change(Profiles, reason);
    }
    if !SomeProfilesConflict(disk, rules, o) {
      assert !Planned(plan, Profiles);
      forall c | c in result.value.changes ensures c.file != Profiles {
        var i :| 0 <= i < |plan| && c == Change(plan[i].file, plan[i].reason);
      }
    }
  }

  /******* When preparation succeeds *******/

  /** The original can be read again and copied to a backup that is not there yet. */
  predicate CanSave(disk: Disk, dir: string, file: File, o: Outcomes) {
    o.reread(file).None? && Live(file) in disk && Saved(dir, file) !in disk && o.save(file).SaveDone?
  }

  lemma {:induction false} SaveAllSucceeds(disk: Disk, dir: string, plan: seq<Replacement>, o: Outcomes)
    requires Plans(plan)
    ensures SaveAll(disk, dir, plan, o).1.None? <==> forall i :: 0 <= i < |plan| ==> CanSave(disk, dir, plan[i].file, o)
    decreases |plan|
  {
    if plan != [] {
      var rest := plan[1..];
      var (first, failure) := Save(disk, dir, plan[0].file, o);
      assert failure.None? <==> CanSave(disk, dir, plan[0].file, o);
      if failure.None? {
        SaveAllSucceeds(first, dir, rest, o);
        forall i | 0 <= i < |rest| ensures CanSave(first, dir, rest[i].file, o) <==> CanSave(disk, dir, plan[i + 1].file, o) {
          assert plan[0].file != plan[i + 1].file;
        }
        assert forall i :: 1 <= i < |plan| ==> plan[i] == rest[i - 1];
      }
    }
  }

  lemma {:induction false} WriteAllSucceeds(disk: Disk, rules: Rules, plan: seq<Replacement>, o: Outcomes)
    ensures WriteAll(disk, rules, plan, o).1.None? <==> forall i :: 0 <= i < |plan| ==> o.write(plan[i].file).Written?
    decreases |plan|
  {
    if plan != [] {
      var file, rest := plan[0].file, plan[1..];
      var (first, failure) := WriteJson(disk, Live(file), LiveTemp(file), rules.show(plan[0].document), o.write(file));
      WriteAllSucceeds(first, rules, rest, o);
      assert forall i :: 1 <= i < |plan| ==> plan[i] == rest[i - 1];
    }
  }

  lemma ApplySucceeds(disk: Disk, rules: Rules, dir: string, plan: seq<Replacement>, o: Outcomes)
    requires Plans(plan)
    ensures Apply(disk, rules, dir, plan, o).1.Success? <==>
      && (forall i :: 0 <= i < |plan| ==> CanSave(disk, dir, plan[i].file, o))
      && o.errors.Written?
      && (forall i :: 0 <= i < |plan| ==> o.write(plan[i].file).Written?)
  {
    var report := Report(Some(dir), Changes(plan));
    var saved := SaveAll(disk, dir, plan, o).0;
    var noted := WriteJson(saved, Errors(dir), ErrorsTemp(dir), rules.showReport(report), o.errors).0;
    SaveAllSucceeds(disk, dir, plan, o);
    WriteAllSucceeds(noted, rules, plan, o);
    hide SaveAll, WriteAll, CanSave, Plans;
  }

  /** The files to be replaced can be saved and replaced, and the reasons recorded. */
  ghost predicate NothingFails(disk: Disk, o: Outcomes, files: set<File>) {
    && o.dir.Success? && o.mkdir.None? && o.protect.None? && o.errors.Written?
    && forall file :: file in files ==> CanSave(disk, o.dir.value, file, o) && o.write(file).Written?
  }

  ghost function Conflicting(disk: Disk, rules: Rules, o: Outcomes): set<File> {
    (if SomeSettingsConflict(disk, rules, o) then {Settings} else {})
    + if SomeProfilesConflict(disk, rules, o) then {Profiles} else {}
  }

  /** The settings can be read, and what would replace the conflicting files is itself accepted. */
  ghost predicate CanPlan(disk: Disk, rules: Rules, o: Outcomes) {
    && (exists read :: Reads(disk, rules, o, Settings, Success(read)))
    && (forall fields, cleaned :: SettingsConflict(disk, rules, o, fields) && IsCleaned(fields, rules.defaults, cleaned) ==>
          rules.settingsError(Object(cleaned)).None?)
    && (SomeProfilesConflict(disk, rules, o) ==>
          rules.defaultProfiles.Success? && rules.storeError(rules.defaultProfiles.value).None?)
  }

  lemma SettingsPlanSucceeds(disk: Disk, rules: Rules, o: Outcomes)
    requires Contracts(rules)
    ensures PlanSettings(disk, rules, o).Success? <==>
      && (exists read :: Reads(disk, rules, o, Settings, Success(read)))
      && (forall fields, cleaned :: SettingsConflict(disk, rules, o, fields) && IsCleaned(fields, rules.defaults, cleaned) ==>
            rules.settingsError(Object(cleaned)).None?)
  {
    var read := ReadDocument(disk, rules, Settings, o);
    forall r ensures read == Success(r) <==> Reads(disk, rules, o, Settings, Success(r)) {
      ReadExactly(disk, rules, o, Settings, Success(r));
    }
    SettingsPlan(disk, rules, o);
    forall fields, cleaned ensures cleaned == Cleaned(fields, rules.defaults) <==> IsCleaned(fields, rules.defaults, cleaned) {
      CleanedExactly(fields, rules.defaults, cleaned);
    }
    hide PlanSettings, Contracts, IsCleaned, SettingsConflict, Reads, ReadDocument, Cleaned;
    if read.Success? {
      assert Reads(disk, rules, o, Settings, Success(read.value));
    }
    if SomeSettingsConflict(disk, rules, o) {
      var fields :| SettingsConflict(disk, rules, o, fields);
      assert IsCleaned(fields, rules.defaults, Cleaned(fields, rules.defaults));
    }
  }

  lemma PlanSucceeds(disk: Disk, rules: Rules, o: Outcomes)
    requires Contracts(rules)
    ensures Plan(disk, rules, o).Success? <==> CanPlan(disk, rules, o)
    ensures Plan(disk, rules, o).Success? ==>
      var plan := Plan(disk, rules, o).value;
      Plans(plan) && forall file :: Planned(plan, file) <==> file in Conflicting(disk, rules, o)
  {
    SettingsPlanSucceeds(disk, rules, o);
    SettingsPlan(disk, rules, o);
    ProfilesPlan(disk, rules, o);
    if Plan(disk, rules, o).Success? {
      PlanMeaning(disk, rules, o);
    }
    hide PlanSettings, PlanProfiles, Contracts, IsCleaned, SettingsConflict, ProfilesConflict, Reads, Plans, Planned, ReadDocument;
  }

  /** Preparation succeeds if and only if it can be planned and, when there is a conflict, no step fails. */
  lemma SucceedsExactly(disk: Disk, rules: Rules, o: Outcomes)
    requires Contracts(rules)
    ensures Prepare(disk, rules, o).1.Success? <==>
      && CanPlan(disk, rules, o)
      && (Conflicting(disk, rules, o) != {} ==> NothingFails(disk, o, Conflicting(disk, rules, o)))
    ensures !CanPlan(disk, rules, o) || Conflicting(disk, rules, o) == {} ==> Prepare(disk, rules, o).0 == disk
  {
    PlanSucceeds(disk, rules, o);
    hide CanPlan, Conflicting, Contracts, Plan, Apply, CanSave;
    if Plan(disk, rules, o).Success? {
      var plan := Plan(disk, rules, o).value;
      var files := Conflicting(disk, rules, o);
      if plan != [] {
        assert Planned(plan, plan[0].file);
      }
      if o.dir.Success? {
        ApplySucceeds(disk, rules, o.dir.value, plan, o);
        forall file | file in files ensures exists i :: 0 <= i < |plan| && plan[i].file == file {
          assert Planned(plan, file);
        }
        forall i | 0 <= i < |plan| ensures plan[i].file in files {
          assert Planned(plan, plan[i].file);
        }
      }
    }
  }

  /** The first error of planning or of the backup directory is returned, and nothing has changed. */
  lemma FirstErrorIsReported(disk: Disk, rules: Rules, o: Outcomes)
    requires Contracts(rules)
    ensures var outcome := Prepare(disk, rules, o);
      && (forall error :: Reads(disk, rules, o, Settings, Failure(error)) ==> outcome == (disk, Failure(error)))
      && (forall fields, error ::
            (SettingsConflict(disk, rules, o, fields) && rules.settingsError(Object(Cleaned(fields, rules.defaults))) == Some(error)) ==>
            outcome == (disk, Failure(error)))
      && (PlanSettings(disk, rules, o).Success? && SomeProfilesConflict(disk, rules, o) ==>
            && (rules.defaultProfiles.Failure? ==> outcome == (disk, Failure(rules.defaultProfiles.error)))
            && (rules.defaultProfiles.Success? && rules.storeError(rules.defaultProfiles.value).Some? ==>
                  outcome == (disk, Failure(rules.storeError(rules.defaultProfiles.value).value))))
      && (CanPlan(disk, rules, o) && Conflicting(disk, rules, o) != {} ==>
            && (o.dir.Failure? ==> outcome == (disk, Failure(o.dir.error)))
            && (o.dir.Success? && o.mkdir.Some? ==> outcome == (disk, Failure(o.mkdir.value)))
            && (o.dir.Success? && o.mkdir.None? && o.protect.Some? ==> outcome == (disk, Failure(o.protect.value))))
  {
    PlanSucceeds(disk, rules, o);
    SettingsPlan(disk, rules, o);
    ProfilesPlan(disk, rules, o);
    forall error | Reads(disk, rules, o, Settings, Failure(error)) ensures ReadDocument(disk, rules, Settings, o) == Failure(error) {
      ReadExactly(disk, rules, o, Settings, Failure(error));
    }
    hide CanPlan, Contracts, Apply, SettingsConflict, ProfilesConflict, Reads, ReadDocument, Plans, PlanSettings, PlanProfiles, Cleaned;
    if Plan(disk, rules, o).Success? && Plan(disk, rules, o).value == [] {
      forall f | f in Conflicting(disk, rules, o) ensures false {
        NotPlanned([], f);
      }
    }
  }

  /** The error of a save is that of reading the original again, of a missing original, of an old backup, or of the copy. */
  predicate SaveError(disk: Disk, dir: string, file: File, o: Outcomes, error: string) {
    || o.reread(file) == Some(error)
    || (Live(file) !in disk && error == "not found")
    || (Saved(dir, file) in disk && error == "already exists")
    || (o.save(file).SaveFailed? && o.save(file).error == error)
  }

  /** Where applying a plan stops, the error is that of the step that failed. */
  ghost predicate IsStepError(disk: Disk, dir: string, plan: seq<Replacement>, o: Outcomes, error: string) {
    || (exists i :: 0 <= i < |plan| && SaveError(disk, dir, plan[i].file, o, error))
    || (o.errors.WriteFailed? && o.errors.error == error)
    || (exists i :: 0 <= i < |plan| && o.write(plan[i].file).WriteFailed? && o.write(plan[i].file).error == error)
  }

  lemma {:induction false} SaveAllError(disk: Disk, dir: string, plan: seq<Replacement>, o: Outcomes)
    requires Plans(plan)
    ensures var failure := SaveAll(disk, dir, plan, o).1;
      failure.Some? ==> exists i :: 0 <= i < |plan| && SaveError(disk, dir, plan[i].file, o, failure.value)
    decreases |plan|
  {
    if plan != [] {
      var rest := plan[1..];
      var (first, failure) := Save(disk, dir, plan[0].file, o);
      if failure.Some? {
        assert SaveError(disk, dir, plan[0].file, o, failure.value);
      } else {
        SaveAllError(first, dir, rest, o);
        var later := SaveAll(first, dir, rest, o).1;
        if later.Some? {
          var i :| 0 <= i < |rest| && SaveError(first, dir, rest[i].file, o, later.value);
          assert plan[i + 1] == rest[i] && plan[0].file != plan[i + 1].file;
          assert SaveError(disk, dir, plan[i + 1].file, o, later.value);
        }
      }
    }
  }

  lemma {:induction false} WriteAllError(disk: Disk, rules: Rules, plan: seq<Replacement>, o: Outcomes)
    ensures var failure := WriteAll(disk, rules, plan, o).1;
      failure.Some? ==> exists i :: 0 <= i < |plan| && o.write(plan[i].file).WriteFailed? && o.write(plan[i].file).error == failure.value
    decreases |plan|
  {
    if plan != [] {
      var file, rest := plan[0].file, plan[1..];
      var (first, failure) := WriteJson(disk, Live(file), LiveTemp(file), rules.show(plan[0].document), o.write(file));
      if failure.None? {
        WriteAllError(first, rules, rest, o);
        var later := WriteAll(first, rules, rest, o).1;
        if later.Some? {
          var i :| 0 <= i < |rest| && o.write(rest[i].file).WriteFailed? && o.write(rest[i].file).error == later.value;
          assert plan[i + 1] == rest[i];
        }
      }
    }
  }

  lemma ApplyReportsItsError(disk: Disk, rules: Rules, dir: string, plan: seq<Replacement>, o: Outcomes)
    requires Plans(plan)
    ensures var result := Apply(disk, rules, dir, plan, o).1;
      result.Failure? ==> IsStepError(disk, dir, plan, o, result.error)
  {
    var report := Report(Some(dir), Changes(plan));
    var saved := SaveAll(disk, dir, plan, o).0;
    var noted := WriteJson(saved, Errors(dir), ErrorsTemp(dir), rules.showReport(report), o.errors).0;
    SaveAllError(disk, dir, plan, o);
    WriteAllError(noted, rules, plan, o);
    hide SaveAll, WriteAll, SaveError, Plans;
  }

  /** After a success that replaced something, the backup holds every original and the report is recorded beside them. */
  lemma SuccessIsRecorded(disk: Disk, rules: Rules, o: Outcomes)
    requires Contracts(rules) && Prepare(disk, rules, o).1.Success?
    ensures
      var (after, result) := Prepare(disk, rules, o);
      && (Conflicting(disk, rules, o) == {} ==> result.value == Report(None, []))
      && (Conflicting(disk, rules, o) != {} ==>
            && o.dir.Success? && result.value.backup == Some(o.dir.value)
            && Holds(after, Errors(o.dir.value), rules.showReport(result.value))
            && forall f :: f in Conflicting(disk, rules, o) ==>
                 Live(f) in disk && Holds(after, Saved(o.dir.value, f), disk[Live(f)]))
  {
    PlanSucceeds(disk, rules, o);
    var plan := Plan(disk, rules, o).value;
    var files := Conflicting(disk, rules, o);
    hide CanPlan, Conflicting, Contracts, Plan, Plans, Planned;
    if plan == [] {
      forall f | f in files ensures false {
        NotPlanned(plan, f);
      }
    } else {
      IsPlanned(plan, 0);
      hide SaveAll, WriteAll, Apply;
      ApplyIsRecorded(disk, rules, o.dir.value, plan, o);
    }
  }

  lemma ApplyIsRecorded(disk: Disk, rules: Rules, dir: string, plan: seq<Replacement>, o: Outcomes)
    requires Plans(plan) && Apply(disk, rules, dir, plan, o).1.Success?
    ensures
      var (after, result) := Apply(disk, rules, dir, plan, o);
      && result.value.backup == Some(dir) && Holds(after, Errors(dir), rules.showReport(result.value))
      && forall f :: Planned(plan, f) ==> Live(f) in disk && Holds(after, Saved(dir, f), disk[Live(f)])
  {
    var saved := SaveAll(disk, dir, plan, o).0;
    var noted := WriteJson(saved, Errors(dir), ErrorsTemp(dir), rules.showReport(Report(Some(dir), Changes(plan))), o.errors).0;
    SaveAllMeaning(disk, dir, plan, o);
    WriteAllMeaning(noted, rules, plan, o);
    hide SaveAll, WriteAll, Plans, Planned;
    var after := WriteAll(noted, rules, plan, o).0;
    assert SameAt(noted, after, Errors(dir));
    forall f | Planned(plan, f) ensures Live(f) in disk && Holds(after, Saved(dir, f), disk[Live(f)]) {
      assert SameAt(noted, after, Saved(dir, f));
    }
  }

  lemma IsPlanned(plan: seq<Replacement>, i: nat)
    requires i < |plan|
    ensures Planned(plan, plan[i].file)
  {
  }

  lemma NotPlanned(plan: seq<Replacement>, file: File)
    requires plan == []
    ensures !Planned(plan, file)
  {
  }

  /******* Any number of preparations *******/

  function PrepareEach(disk: Disk, rules: Rules, runs: seq<Outcomes>): Disk
    requires Contracts(rules)
    decreases |runs|
  {
    if runs == [] then disk else PrepareEach(Prepare(disk, rules, runs[0]).0, rules, runs[1..])
  }

  /** The original is where it was, or its bytes are in some backup. */
  ghost predicate Recoverable(original: Disk, disk: Disk, file: File) {
    || SameAt(original, disk, Live(file))
    || (Live(file) in original && exists dir: string :: Holds(disk, Saved(dir, file), original[Live(file)]))
  }

  lemma RecoverableKept(original: Disk, disk: Disk, rules: Rules, o: Outcomes, file: File)
    requires Contracts(rules) && Recoverable(original, disk, file)
    ensures Recoverable(original, Prepare(disk, rules, o).0, file)
  {
    hide Contracts, Prepare;
    var after := Prepare(disk, rules, o).0;
    OriginalsAreSafe(disk, rules, o);
    if SameAt(original, disk, Live(file)) {
      assert SameAt(disk, after, Live(file)) || Holds(after, Saved(o.dir.value, file), disk[Live(file)]);
    } else {
      var dir: string :| Holds(disk, Saved(dir, file), original[Live(file)]);
      OtherFilesUntouched(disk, rules, o, Saved(dir, file));
      assert Holds(after, Saved(dir, file), original[Live(file)]);
    }
  }

  /** However often preparation runs and wherever each run fails, no original content is lost. */
  lemma {:induction false} OriginalsSurviveEveryRun(original: Disk, disk: Disk, rules: Rules, runs: seq<Outcomes>, file: File)
    requires Contracts(rules) && Recoverable(original, disk, file)
    ensures Recoverable(original, PrepareEach(disk, rules, runs), file)
    decreases |runs|
  {
    if runs != [] {
      hide Contracts, Prepare, Recoverable;
      RecoverableKept(original, disk, rules, runs[0], file);
      OriginalsSurviveEveryRun(original, Prepare(disk, rules, runs[0]).0, rules, runs[1..], file);
    }
  }
}

/** The administrator's editors: the project form with its slug-derived id,
    comma-separated lists and nested links; saving, creating and cancelling;
    the theme colour editor; and the skills field of the settings form. */
module AdminPanel {
  import opened Wrappers
  import opened Types
  import opened Text

  // ---------------------------------------------------------------------
  // slugify
  // ---------------------------------------------------------------------

  /** `[a-z0-9]`. */
  predicate IsSlugChar(c: char) {
    ('a' <= c <= 'z') || ('0' <= c <= '9')
  }

  predicate SlugOrDash(s: string) {
    forall i :: 0 <= i < |s| ==> IsSlugChar(s[i]) || s[i] == '-'
  }

  predicate NoDoubleDash(s: string) {
    forall i :: 0 <= i < |s| - 1 ==> !(s[i] == '-' && s[i + 1] == '-')
  }

  /** What `slugify` promises: only `[a-z0-9-]`, no `--`, and no `-` at
      either end. */
  predicate IsSlug(s: string) {
    && SlugOrDash(s)
    && NoDoubleDash(s)
    && (s == "" || (s[0] != '-' && s[|s| - 1] != '-'))
  }

  /** `s` without its leading run of characters outside `[a-z0-9]`. */
  function SkipRun(s: string): (r: string)
    ensures |r| <= |s| && r == s[|s| - |r|..]
    ensures r == "" || IsSlugChar(r[0])
    ensures |s| > 0 && !IsSlugChar(s[0]) ==> |r| < |s|
  {
    if |s| > 0 && !IsSlugChar(s[0]) then SkipRun(s[1..]) else s
  }

  /** `.replace(/[^a-z0-9]+/g, '-')`: every maximal run of characters
      outside `[a-z0-9]` becomes one `-`. */
  function Dashed(s: string): (r: string)
    ensures SlugOrDash(r) && NoDoubleDash(r)
    ensures |s| == 0 <==> |r| == 0
    ensures |s| > 0 && IsSlugChar(s[0]) ==> r[0] == s[0]
    ensures |s| > 0 && !IsSlugChar(s[0]) ==> r[0] == '-'
    decreases |s|
  {
    if |s| == 0 then ""
    else if IsSlugChar(s[0]) then [s[0]] + Dashed(s[1..])
    else "-" + Dashed(SkipRun(s))
  }

  /** `.replace(/(^-|-$)+/g, '')` on text without `--`: drop one leading and
      one trailing `-`. */
  function StripDashes(t: string): (r: string)
    requires SlugOrDash(t) && NoDoubleDash(t)
    ensures IsSlug(r)
    ensures |r| <= |t|
  {
    var a := if |t| > 0 && t[0] == '-' then t[1..] else t;
    if |a| > 0 && a[|a| - 1] == '-' then a[..|a| - 1] else a
  }

  /** `slugify(text)`, with ASCII lower-casing. */
  function Slugify(text: string): (r: string)
    ensures IsSlug(r)
  {
    StripDashes(Dashed(Lower(text)))
  }

  /** Text that is already a slug passes through `.replace(/[^a-z0-9]+/g, '-')`
      unchanged. */
  lemma {:induction false} DashedFixed(s: string)
    requires SlugOrDash(s) && NoDoubleDash(s)
    ensures Dashed(s) == s
    decreases |s|
  {
    if |s| > 0 {
      var t := s[1..];
      TailKeepsShape(s);
      DashedFixed(t);
      assert s == [s[0]] + t;
      if !IsSlugChar(s[0]) {
        assert t == "" || IsSlugChar(t[0]);
        assert SkipRun(s) == t;
      }
    }
  }

  /** Dropping the first character keeps the text free of `--` and of
      characters outside `[a-z0-9-]`. */
  lemma TailKeepsShape(s: string)
    requires |s| > 0 && SlugOrDash(s) && NoDoubleDash(s)
    ensures SlugOrDash(s[1..]) && NoDoubleDash(s[1..])
  {
    var t := s[1..];
    forall i | 0 <= i < |t|
      ensures IsSlugChar(t[i]) || t[i] == '-'
    {
      assert t[i] == s[i + 1];
    }
    forall i | 0 <= i < |t| - 1
      ensures !(t[i] == '-' && t[i + 1] == '-')
    {
      assert t[i] == s[i + 1] && t[i + 1] == s[i + 2];
    }
  }

  /** Slugs are exactly the texts `slugify` leaves unchanged. */
  lemma SlugFixed(s: string)
    ensures Slugify(s) == s <==> IsSlug(s)
  {
    if IsSlug(s) {
      assert NoUpper(s);
      LowerFixed(s);
      DashedFixed(s);
      assert StripDashes(s) == s;
    }
  }

  /** `slugify` is idempotent. */
  lemma SlugifyIdempotent(text: string)
    ensures Slugify(Slugify(text)) == Slugify(text)
  {
    SlugFixed(Slugify(text));
  }

  /** A maximal piece of `[a-z0-9]` text: non-empty and made of those
      characters only. */
  predicate IsWord(w: string) {
    w != "" && forall j :: 0 <= j < |w| ==> IsSlugChar(w[j])
  }

  /** The longest leading run of `[a-z0-9]` characters. */
  function TakeWord(s: string): (w: string)
    ensures |w| <= |s| && w == s[..|w|]
    ensures forall j :: 0 <= j < |w| ==> IsSlugChar(w[j])
    ensures |w| < |s| ==> !IsSlugChar(s[|w|])
    ensures |s| > 0 && IsSlugChar(s[0]) ==> |w| > 0
  {
    if |s| > 0 && IsSlugChar(s[0]) then [s[0]] + TakeWord(s[1..]) else ""
  }

  /** `s.match(/[a-z0-9]+/g)`: the maximal runs of `[a-z0-9]` in `s`, in
      order. This is the reference `slugify` is measured against. */
  function Words(s: string): seq<string>
    decreases |s|
  {
    var t := SkipRun(s);
    if t == "" then []
    else
      var w := TakeWord(t);
      [w] + Words(t[|w|..])
  }

  /** Every piece `Words` finds is a non-empty run of `[a-z0-9]`. */
  lemma {:induction false} WordsAreWords(s: string)
    ensures forall i :: 0 <= i < |Words(s)| ==> IsWord(Words(s)[i])
    decreases |s|
  {
    var t := SkipRun(s);
    if t != "" {
      var w := TakeWord(t);
      var rest := Words(t[|w|..]);
      WordsAreWords(t[|w|..]);
      assert IsWord(w);
      assert Words(s) == [w] + rest;
      forall i | 0 <= i < |Words(s)|
        ensures IsWord(Words(s)[i])
      {
        if i > 0 {
          assert Words(s)[i] == rest[i - 1];
        }
      }
    }
  }

  /** `t` without one trailing `-`. */
  function StripTrail(t: string): string {
    if |t| > 0 && t[|t| - 1] == '-' then t[..|t| - 1] else t
  }

  /** A run of `[a-z0-9]` passes through the dash replacement unchanged. */
  lemma {:induction false} DashedWord(w: string, rest: string)
    requires forall j :: 0 <= j < |w| ==> IsSlugChar(w[j])
    ensures Dashed(w + rest) == w + Dashed(rest)
    decreases |w|
  {
    if |w| == 0 {
      assert w + rest == rest;
    } else {
      var x := w + rest;
      assert x[0] == w[0] && IsSlugChar(x[0]);
      assert x[1..] == w[1..] + rest;
      assert Dashed(x) == [w[0]] + Dashed(w[1..] + rest);
      DashedWord(w[1..], rest);
      assert w == [w[0]] + w[1..];
      AppendAssoc([w[0]], w[1..], Dashed(rest));
    }
  }

  /** Text already past its leading separators has the same words. */
  lemma WordsAfterSkip(s: string)
    ensures Words(SkipRun(s)) == Words(s)
  {
    var u := SkipRun(s);
    assert SkipRun(u) == u;
  }

  /** A trailing dash is dropped from the last piece, not the first. */
  lemma StripTrailAfter(w: string, x: string)
    requires x != ""
    ensures StripTrail(w + "-" + x) == w + "-" + StripTrail(x)
  {
    if x[|x| - 1] == '-' {
      assert (w + "-" + x)[..|w + "-" + x| - 1] == w + "-" + x[..|x| - 1];
    }
  }

  /** From a letter or digit on, the dashed text is the words joined by `-`,
      plus at most one trailing `-`. */
  lemma {:induction false} DashedWords(s: string)
    requires |s| > 0 && IsSlugChar(s[0])
    ensures StripTrail(Dashed(s)) == Join(Words(s), "-") && |Words(s)| > 0
    decreases |s|
  {
    var w := TakeWord(s);
    var rest := s[|w|..];
    FirstWord(s);
    if rest == "" {
      assert Words(rest) == [];
      assert Dashed(s) == w;
    } else {
      var u := SkipRun(rest);
      SeparatorRun(rest);
      if u == "" {
        assert Words(u) == [];
        assert Dashed(s) == w + "-";
        assert StripTrail(w + "-") == w;
      } else {
        DashedWords(u);
        AppendAssoc(w, "-", Dashed(u));
        StripTrailAfter(w, Dashed(u));
        JoinCons(w, Words(u), "-");
      }
    }
  }

  /** Text starting with a letter or digit: its first word passes through
      the dash replacement and heads the word list. */
  lemma FirstWord(s: string)
    requires |s| > 0 && IsSlugChar(s[0])
    ensures Dashed(s) == TakeWord(s) + Dashed(s[|TakeWord(s)|..])
    ensures Words(s) == [TakeWord(s)] + Words(s[|TakeWord(s)|..])
  {
    var w := TakeWord(s);
    assert s == w + s[|w|..];
    assert SkipRun(s) == s;
    DashedWord(w, s[|w|..]);
  }

  /** A run of separators becomes one `-` and holds no word. */
  lemma SeparatorRun(s: string)
    requires |s| > 0 && !IsSlugChar(s[0])
    ensures Dashed(s) == "-" + Dashed(SkipRun(s))
    ensures Words(s) == Words(SkipRun(s))
  {
    WordsAfterSkip(s);
  }


  /** `slugify` joins the lower-cased text's runs of letters and digits with
      single dashes: every letter and digit survives in order, and one `-`
      stands exactly where a run of other characters separated two of them. */
  lemma SlugifyWords(text: string)
    ensures Slugify(text) == Join(Words(Lower(text)), "-")
  {
    StripDashedWords(Lower(text));
  }

  /** Both edge dashes removed, the dashed text is the words joined by `-`. */
  lemma StripDashedWords(l: string)
    ensures StripDashes(Dashed(l)) == Join(Words(l), "-")
  {
    var d := Dashed(l);
    StripDashesTrail(d);
    if l != "" {
      if IsSlugChar(l[0]) {
        DashedWords(l);
      } else {
        LeadingSeparators(l);
      }
    }
  }

  /** After a leading run of separators, which becomes the leading `-`. */
  lemma LeadingSeparators(l: string)
    requires l != "" && !IsSlugChar(l[0])
    ensures StripTrail(Dashed(l)[1..]) == Join(Words(l), "-")
  {
    var u := SkipRun(l);
    assert Dashed(l) == "-" + Dashed(u);
    assert Dashed(l)[1..] == Dashed(u);
    WordsAfterSkip(l);
    if u != "" {
      DashedWords(u);
    }
  }

  /** `StripDashes` drops a leading `-` and then a trailing one. */
  lemma StripDashesTrail(t: string)
    requires SlugOrDash(t) && NoDoubleDash(t)
    ensures StripDashes(t) == if |t| > 0 && t[0] == '-' then StripTrail(t[1..]) else StripTrail(t)
  {
  }

  // ---------------------------------------------------------------------
  // The project form
  // ---------------------------------------------------------------------

  /** A value of the form state `Partial<Project>`: text, a list, the links
      object, or the `isFirestore` flag. */
  datatype Value = Str(s: string) | Items(items: seq<string>) | LinkMap(links: map<string, string>) | Flag(b: bool)

  /** The form: present keys only, as after a JSON round trip. */
  type Form = map<string, Value>

  function LinksForm(l: ProjectLink): map<string, string> {
    var m0: map<string, string> := map[];
    var m1 := if l.live.Some? then m0["live" := l.live.value] else m0;
    var m2 := if l.github.Some? then m1["github" := l.github.value] else m1;
    var m3 := if l.docs.Some? then m2["docs" := l.docs.value] else m2;
    if l.whitepaper.Some? then m3["whitepaper" := l.whitepaper.value] else m3
  }

  /** `JSON.parse(JSON.stringify(project))`: absent optional properties are
      absent keys. */
  function FormOf(p: Project): (f: Form)
    ensures "id" in f && f["id"] == Str(p.id) && "name" in f && f["name"] == Str(p.name)
  {
    var base: Form := map[
      "id" := Str(p.id), "name" := Str(p.name), "tagline" := Str(p.tagline), "role" := Str(p.role),
      "techStack" := Items(p.techStack), "description" := Str(p.description),
      "longDescription" := Str(p.longDescription), "features" := Items(p.features),
      "links" := LinkMap(LinksForm(p.links)), "icon" := Str(p.icon)];
    var f1 := if p.screenshots.Some? then base["screenshots" := Items(p.screenshots.value)] else base;
    var f2 := if p.demoGif.Some? then f1["demoGif" := Str(p.demoGif.value)] else f1;
    var f3 := if p.architectureDiagram.Some? then f2["architectureDiagram" := Str(p.architectureDiagram.value)] else f2;
    if p.isFirestore then f3["isFirestore" := Flag(true)] else f3
  }

  /** `newProjectTemplate`. */
  const Template: Form := map[
    "id" := Str(""), "name" := Str(""), "tagline" := Str(""), "role" := Str(""),
    "techStack" := Items([]), "description" := Str(""), "longDescription" := Str(""),
    "features" := Items([]), "screenshots" := Items([]), "demoGif" := Str(""),
    "architectureDiagram" := Str(""),
    "links" := LinkMap(map["live" := "", "github" := "", "docs" := "", "whitepaper" := ""]),
    "icon" := Str("Folder")]

  /** The selection that means "creating a new project". */
  const NewId := "new"

  /** The editor: the selected project id (`null` is `None`) and the form. */
  datatype Editor = Editor(selection: Option<string>, form: Form)

  /** `editableProjects`: every project but the built-in windows, in order. */
  function Editable(projects: seq<Project>): (r: seq<Project>)
    ensures |r| <= |projects|
    ensures forall p :: p in r <==> p in projects && !IsSystemId(p.id)
  {
    if |projects| == 0 then []
    else
      var rest := Editable(projects[1..]);
      assert forall p :: p in projects <==> p == projects[0] || p in projects[1..];
      if IsSystemId(projects[0].id) then rest else [projects[0]] + rest
  }

  /** `editableProjects[0]?.id || null`: an empty id is falsy too. */
  function FirstEditable(projects: seq<Project>): (r: Option<string>)
    ensures r.Some? ==> r.value != "" && exists p :: p in projects && !IsSystemId(p.id) && p.id == r.value
    ensures (forall p :: p in projects ==> IsSystemId(p.id)) ==> r.None?
  {
    var e := Editable(projects);
    if |e| > 0 && e[0].id != "" then
      assert e[0] in e;
      Some(e[0].id)
    else None
  }

  /** The project itself unless it is a built-in window. */
  function EditableOf(x: Project): seq<Project> {
    if IsSystemId(x.id) then [] else [x]
  }

  lemma EditableCons(x: Project, rest: seq<Project>)
    ensures Editable([x] + rest) == EditableOf(x) + Editable(rest)
  {
    assert ([x] + rest)[0] == x && ([x] + rest)[1..] == rest;
  }

  /** The filter distributes over concatenation, so the editable projects
      keep their list order. */
  lemma {:induction false} EditableOrder(xs: seq<Project>, ys: seq<Project>)
    ensures Editable(xs + ys) == Editable(xs) + Editable(ys)
    decreases |xs|
  {
    if |xs| == 0 {
      assert xs + ys == ys;
    } else {
      var x, rest := xs[0], xs[1..];
      assert xs == [x] + rest;
      assert xs + ys == [x] + (rest + ys);
      EditableOrder(rest, ys);
      EditableCons(x, rest + ys);
      EditableCons(x, rest);
      Text.AppendAssoc(EditableOf(x), Editable(rest), Editable(ys));
    }
  }

  /** A list of built-in windows has nothing to edit. */
  lemma {:induction false} EditableNone(xs: seq<Project>)
    requires forall j :: 0 <= j < |xs| ==> IsSystemId(xs[j].id)
    ensures Editable(xs) == []
    decreases |xs|
  {
    if |xs| > 0 {
      EditableNone(xs[1..]);
    }
  }

  /** The initial selection is the id of the first project that is not a
      built-in window, and nothing when that id is empty. */
  lemma FirstEditableIsFirst(projects: seq<Project>, i: nat)
    requires i < |projects| && !IsSystemId(projects[i].id)
    requires forall j :: 0 <= j < i ==> IsSystemId(projects[j].id)
    ensures FirstEditable(projects) == if projects[i].id == "" then None else Some(projects[i].id)
  {
    var before, after := projects[..i], projects[i..];
    assert projects == before + after;
    EditableOrder(before, after);
    EditableNone(before);
    assert after == [projects[i]] + projects[i + 1..];
    EditableCons(projects[i], projects[i + 1..]);
  }

  /** The form for a stored project, or `{}` when none has the id. */
  function StoredForm(projects: seq<Project>, selection: Option<string>): (f: Form)
    ensures selection.Some? && FindProject(projects, selection.value).Some? ==>
              f == FormOf(FindProject(projects, selection.value).value)
    ensures selection.None? || FindProject(projects, selection.value).None? ==> f == map[]
  {
    if selection.None? then map[]
    else
      match FindProject(projects, selection.value)
      case Some(p) => FormOf(p)
      case None => map[]
  }

  /** The effect that loads the form whenever the selection changes: the
      template for `new`, the stored project for a (non-empty) id, else
      nothing. */
  function Load(selection: Option<string>, projects: seq<Project>): (f: Form)
    ensures selection == Some(NewId) ==> f == Template
    ensures selection.None? || selection == Some("") ==> f == map[]
    ensures selection.Some? && selection.value !in {NewId, ""} ==> f == StoredForm(projects, selection)
  {
    if selection == Some(NewId) then Template
    else if selection.Some? && selection.value != "" then StoredForm(projects, selection)
    else map[]
  }

  /** Selecting `sel` (a list entry or "New Project"): the form reloads when
      the selection changes. */
  function Select(ed: Editor, sel: Option<string>, projects: seq<Project>): (r: Editor)
    ensures r.selection == sel
    ensures sel != ed.selection ==> r.form == Load(sel, projects)
    ensures sel == ed.selection ==> r == ed
  {
    if sel == ed.selection then ed else Editor(sel, Load(sel, projects))
  }

  /** The editor as it opens. */
  function Open(projects: seq<Project>): (r: Editor)
    ensures r.selection == FirstEditable(projects)
    ensures r.form == Load(FirstEditable(projects), projects)
  {
    var sel := FirstEditable(projects);
    Editor(sel, Load(sel, projects))
  }

  /** The editor opens on the first project that is not a built-in window:
      nothing selected and an empty form when its id is empty, the template
      when its id is the "new" sentinel, and otherwise that project's JSON
      copy. */
  lemma OpenOnFirst(projects: seq<Project>, i: nat)
    requires i < |projects| && !IsSystemId(projects[i].id)
    requires forall j :: 0 <= j < i ==> IsSystemId(projects[j].id)
    ensures projects[i].id == "" ==> Open(projects) == Editor(None, map[])
    ensures projects[i].id == NewId ==> Open(projects) == Editor(Some(NewId), Template)
    ensures projects[i].id !in {"", NewId} ==> Open(projects) == Editor(Some(projects[i].id), FormOf(projects[i]))
  {
    FirstEditableIsFirst(projects, i);
    var id := projects[i].id;
    if id !in {"", NewId} {
      var found := FindProject(projects, id);
      assert found.Some? by {
        assert projects[i].id == id;
      }
      var k :| 0 <= k < |projects| && projects[k] == found.value && NoIdBefore(projects, id, k);
      assert projects[k].id == id;
      assert k == i;
    }
  }

  /** With only built-in windows, the editor opens with nothing selected and
      an empty form. */
  lemma OpenNothingEditable(projects: seq<Project>)
    requires forall j :: 0 <= j < |projects| ==> IsSystemId(projects[j].id)
    ensures Open(projects) == Editor(None, map[])
  {
    EditableNone(projects);
  }

  // ---------------------------------------------------------------------
  // Field edits
  // ---------------------------------------------------------------------

  /** The links object of the form, `{}` when there is none. */
  function LinksOf(f: Form): map<string, string> {
    if "links" in f && f["links"].LinkMap? then f["links"].links else map[]
  }

  /** `name.split('.')[1]` for a name starting with `links.`. */
  function LinkName(name: string): string
    requires StartsWith(name, "links.")
  {
    var parts := Split(name, '.');
    assert name == "links" + ['.'] + name[6..];
    SplitCons("links", '.', name[6..]);
    parts[1]
  }

  /** `handleInputChange` for the text field called `name`. */
  function InputChange(ed: Editor, name: string, value: string): (r: Editor)
    ensures r.selection == ed.selection
    ensures StartsWith(name, "links.") ==>
              && r.form == ed.form["links" := LinkMap(LinksOf(ed.form)[LinkName(name) := value])]
    ensures !StartsWith(name, "links.") && name == "name" && ed.selection == Some(NewId) ==>
              r.form == ed.form["name" := Str(value)]["id" := Str(Slugify(value))]
    ensures !StartsWith(name, "links.") && !(name == "name" && ed.selection == Some(NewId)) ==>
              r.form == ed.form[name := Str(value)]
  {
    if StartsWith(name, "links.") then
      ed.(form := ed.form["links" := LinkMap(LinksOf(ed.form)[LinkName(name) := value])])
    else if name == "name" && ed.selection == Some(NewId) then
      ed.(form := ed.form["name" := Str(value)]["id" := Str(Slugify(value))])
    else
      ed.(form := ed.form[name := Str(value)])
  }

  /** A `links.X` edit sets link `X` and leaves every other link and every
      other field as it was. */
  lemma LinkEditIsLocal(ed: Editor, name: string, value: string)
    requires StartsWith(name, "links.")
    ensures var f := InputChange(ed, name, value).form;
            && LinksOf(f)[LinkName(name)] == value
            && (forall k :: k in LinksOf(ed.form) && k != LinkName(name) ==> k in LinksOf(f) && LinksOf(f)[k] == LinksOf(ed.form)[k])
            && (forall k :: k in LinksOf(f) ==> k == LinkName(name) || k in LinksOf(ed.form))
            && (forall key :: key != "links" ==> (key in f <==> key in ed.form) && (key in f ==> f[key] == ed.form[key]))
  {
  }

  /** Typing the name of a new project also gives it the slug of that name
      as its id; nothing else changes. */
  lemma NewNameSetsId(ed: Editor, value: string)
    requires ed.selection == Some(NewId)
    ensures var f := InputChange(ed, "name", value).form;
            && f["name"] == Str(value) && f["id"] == Str(Slugify(value)) && IsSlug(Slugify(value))
            && (forall key :: key !in {"name", "id"} ==> (key in f <==> key in ed.form) && (key in f ==> f[key] == ed.form[key]))
  {
  }

  /** Any other field edit changes that key only, and the id of an existing
      project is not touched by editing its name. */
  lemma FieldEditIsLocal(ed: Editor, name: string, value: string)
    requires !StartsWith(name, "links.") && !(name == "name" && ed.selection == Some(NewId))
    ensures var f := InputChange(ed, name, value).form;
            && f[name] == Str(value)
            && (forall key :: key != name ==> (key in f <==> key in ed.form) && (key in f ==> f[key] == ed.form[key]))
  {
  }

  /** The fields edited as comma-separated lists. */
  datatype ListField = TechStack | Features | Screenshots

  function ListKey(field: ListField): string {
    match field
    case TechStack => "techStack"
    case Features => "features"
    case Screenshots => "screenshots"
  }

  /** `handleArrayChange`: the trimmed non-empty comma-separated pieces. */
  function ArrayChange(ed: Editor, field: ListField, text: string): (r: Editor)
    ensures r.selection == ed.selection
    ensures ListKey(field) in r.form && r.form[ListKey(field)].Items?
    ensures forall x :: x in r.form[ListKey(field)].items ==> x != "" && Trimmed(x) && ',' !in x
    ensures forall key :: key != ListKey(field) ==> (key in r.form <==> key in ed.form) && (key in r.form ==> r.form[key] == ed.form[key])
  {
    ed.(form := ed.form[ListKey(field) := Items(ParseList(text))])
  }

  /** The list shown as `items.join(', ')` and typed back unchanged is stored
      unchanged. */
  lemma ArrayFieldRoundTrip(ed: Editor, field: ListField, items: seq<string>)
    requires forall i :: 0 <= i < |items| ==> ListItem(items[i])
    ensures ArrayChange(ed, field, Join(items, ", ")).form[ListKey(field)] == Items(items)
  {
    ParseJoinedList(items);
  }

  // ---------------------------------------------------------------------
  // Saving and cancelling
  // ---------------------------------------------------------------------

  /** The text of a form field, `""` when it is missing (the id and name are
      only ever set as text). */
  function TextOf(f: Form, key: string): string {
    if key in f && f[key].Str? then f[key].s else ""
  }

  datatype Rejection = MissingIdOrName | DuplicateId

  /** What saving asks of the application. */
  datatype Outcome = Rejected(reason: Rejection) | Create(form: Form) | Update(form: Form)

  /** `handleSubmit`. Creating selects the new id, and the selection change
      reloads the form from `projects`, which does not hold the new project
      yet: the form empties, unless the id is the "new" sentinel itself, in
      which case the selection does not change and the form stays. */
  function Submit(ed: Editor, projects: seq<Project>): (r: (Outcome, Editor))
    ensures TextOf(ed.form, "id") == "" || TextOf(ed.form, "name") == "" ==> r == (Rejected(MissingIdOrName), ed)
    ensures r.0.Create? ==>
              && ed.selection == Some(NewId)
              && (forall p :: p in projects ==> p.id != TextOf(ed.form, "id"))
              && r.0.form == ed.form
              && r.1 == Select(ed, Some(TextOf(ed.form, "id")), projects)
    ensures r.0.Create? && TextOf(ed.form, "id") != NewId ==> r.1 == Editor(Some(TextOf(ed.form, "id")), map[])
    ensures r.0.Create? && TextOf(ed.form, "id") == NewId ==> r.1 == ed
    ensures r.0.Update? ==> ed.selection != Some(NewId) && r.0.form == ed.form && r.1 == ed
    ensures r.0.Rejected? ==> r.1 == ed
  {
    var id := TextOf(ed.form, "id");
    if id == "" || TextOf(ed.form, "name") == "" then (Rejected(MissingIdOrName), ed)
    else if ed.selection == Some(NewId) then
      if exists p :: p in projects && p.id == id then (Rejected(DuplicateId), ed)
      else (Create(ed.form), Select(ed, Some(id), projects))
    else (Update(ed.form), ed)
  }

  /** Saving with an id and a name creates a new project exactly when its id
      is unused and updates otherwise. */
  lemma SubmitOutcomes(ed: Editor, projects: seq<Project>)
    requires TextOf(ed.form, "id") != "" && TextOf(ed.form, "name") != ""
    ensures var r := Submit(ed, projects).0;
            var taken := exists p :: p in projects && p.id == TextOf(ed.form, "id");
            && (ed.selection == Some(NewId) && taken ==> r == Rejected(DuplicateId))
            && (ed.selection == Some(NewId) && !taken ==> r == Create(ed.form))
            && (ed.selection != Some(NewId) ==> r == Update(ed.form))
  {
  }

  /** `handleCancel`: leave a new project for the first editable one, or
      restore the stored version of the one being edited. */
  function Cancel(ed: Editor, projects: seq<Project>): (r: Editor)
    ensures ed.selection == Some(NewId) ==> r == Select(ed, FirstEditable(projects), projects)
    ensures ed.selection != Some(NewId) ==> r.selection == ed.selection && r.form == StoredForm(projects, ed.selection)
  {
    if ed.selection == Some(NewId) then Select(ed, FirstEditable(projects), projects)
    else ed.(form := StoredForm(projects, ed.selection))
  }

  /** Cancelling an edit of a stored project undoes every field edit. */
  lemma CancelUndoesEdits(ed: Editor, projects: seq<Project>, name: string, value: string)
    requires ed.selection.Some? && ed.selection.value !in {NewId, ""}
    requires ed.form == Load(ed.selection, projects)
    ensures Cancel(InputChange(ed, name, value), projects) == ed
  {
  }

  // ---------------------------------------------------------------------
  // Theme colours and settings
  // ---------------------------------------------------------------------

  /** `ThemeEditor.handleColorChange`: one colour of one theme is replaced. */
  function ColorChange(colors: AppTheme, t: ThemeName, f: ColorField, value: string): (r: AppTheme)
    ensures GetColor(r, t, f) == value
    ensures forall t', f' :: (t' != t || f' != f) ==> GetColor(r, t', f') == GetColor(colors, t', f')
  {
    SetColor(colors, t, f, value)
  }

  /** Choosing the colour a field already has changes nothing. */
  lemma ColorChangeSame(colors: AppTheme, t: ThemeName, f: ColorField)
    ensures ColorChange(colors, t, f, GetColor(colors, t, f)) == colors
  {
    var r := ColorChange(colors, t, f, GetColor(colors, t, f));
    assert forall g :: GetField(r.light, g) == GetField(colors.light, g);
    assert forall g :: GetField(r.dark, g) == GetField(colors.dark, g);
    FieldsDetermine(r.light, colors.light);
    FieldsDetermine(r.dark, colors.dark);
  }

  /** The stored `skills` setting: an array, or anything else. */
  datatype StoredSkills = SkillArray(skills: seq<string>) | NotAnArray

  /** The skills field of the settings form: the array joined by `", "`, or
      empty for anything that is not an array. */
  function SkillsText(s: StoredSkills): (r: string)
    ensures s.NotAnArray? ==> r == ""
    ensures s.SkillArray? && |s.skills| == 0 ==> r == ""
  {
    match s
    case SkillArray(xs) => Join(xs, ", ")
    case NotAnArray => ""
  }

  /** Skills shown in the settings form read back as the same list. */
  lemma SkillsRoundTrip(xs: seq<string>)
    requires forall i :: 0 <= i < |xs| ==> ListItem(xs[i])
    ensures ParseList(SkillsText(SkillArray(xs))) == xs
  {
    ParseJoinedList(xs);
  }
}

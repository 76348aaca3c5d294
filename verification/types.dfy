/** The records of the application's data model: a portfolio project with
    its links and media, and the two-theme colour table. */
module Types {
  import opened Wrappers

  // ---------------------------------------------------------------------
  // Projects
  // ---------------------------------------------------------------------

  datatype LinkKind = Live | GitHub | Docs | Whitepaper

  /** Every link is optional. */
  datatype ProjectLink = ProjectLink(
    live: Option<string>,
    github: Option<string>,
    docs: Option<string>,
    whitepaper: Option<string>)

  const NoLinks := ProjectLink(None, None, None, None)

  function GetLink(l: ProjectLink, k: LinkKind): Option<string> {
    match k
    case Live => l.live
    case GitHub => l.github
    case Docs => l.docs
    case Whitepaper => l.whitepaper
  }

  /** `{ ...links, [k]: v }`. */
  function SetLink(l: ProjectLink, k: LinkKind, v: string): (r: ProjectLink)
    ensures GetLink(r, k) == Some(v)
    ensures forall k' :: k' != k ==> GetLink(r, k') == GetLink(l, k')
  {
    match k
    case Live => l.(live := Some(v))
    case GitHub => l.(github := Some(v))
    case Docs => l.(docs := Some(v))
    case Whitepaper => l.(whitepaper := Some(v))
  }

  /** A portfolio project. Optional properties are `Option`s; an absent
      `isFirestore` flag is `false`. */
  datatype Project = Project(
    id: string,
    name: string,
    tagline: string,
    role: string,
    techStack: seq<string>,
    description: string,
    longDescription: string,
    features: seq<string>,
    screenshots: Option<seq<string>>,
    demoGif: Option<string>,
    architectureDiagram: Option<string>,
    links: ProjectLink,
    icon: string,
    isFirestore: bool)

  /** JavaScript truthiness of an optional string. */
  predicate Truthy(o: Option<string>) {
    o.Some? && o.value != ""
  }

  /** The ids of the built-in windows that are not portfolio content. */
  predicate IsSystemId(id: string) {
    id == "terminal" || id == "login" || id == "admin-panel"
  }

  /** `projects.find(p => p.id === id)`: the first project with that id. */
  function FindProject(projects: seq<Project>, id: string): (r: Option<Project>)
    ensures r.Some? ==> r.value in projects && r.value.id == id
    ensures r.None? <==> forall i :: 0 <= i < |projects| ==> projects[i].id != id
    ensures r.Some? ==> exists i :: 0 <= i < |projects| && projects[i] == r.value && NoIdBefore(projects, id, i)
  {
    if |projects| == 0 then None
    else if projects[0].id == id then Some(projects[0])
    else
      var r := FindProject(projects[1..], id);
      assert r.Some? ==> r.value == projects[1..][IndexIn(projects[1..], r.value)];
      r
  }

  /** No project before position `i` has the given id. */
  predicate NoIdBefore(projects: seq<Project>, id: string, i: nat)
    requires i <= |projects|
  {
    forall j :: 0 <= j < i ==> projects[j].id != id
  }

  /** Some position of `p` in `s`. */
  function IndexIn(s: seq<Project>, p: Project): (i: nat)
    requires p in s
    ensures i < |s| && s[i] == p
  {
    if s[0] == p then 0 else 1 + IndexIn(s[1..], p)
  }

  // ---------------------------------------------------------------------
  // Theme colours
  // ---------------------------------------------------------------------

  datatype ThemeName = Light | Dark

  datatype ColorField = Bg1 | Bg2 | Accent | WindowBg | WindowHeader | TextPrimary | TextSecondary

  datatype ThemeColors = ThemeColors(
    bg1: string,
    bg2: string,
    accent: string,
    windowBg: string,
    windowHeader: string,
    textPrimary: string,
    textSecondary: string)

  datatype AppTheme = AppTheme(light: ThemeColors, dark: ThemeColors)

  function GetField(c: ThemeColors, f: ColorField): string {
    match f
    case Bg1 => c.bg1
    case Bg2 => c.bg2
    case Accent => c.accent
    case WindowBg => c.windowBg
    case WindowHeader => c.windowHeader
    case TextPrimary => c.textPrimary
    case TextSecondary => c.textSecondary
  }

  /** A palette is determined by its seven colours. */
  lemma FieldsDetermine(a: ThemeColors, b: ThemeColors)
    requires forall g :: GetField(a, g) == GetField(b, g)
    ensures a == b
  {
    assert GetField(a, Bg1) == GetField(b, Bg1) && GetField(a, Bg2) == GetField(b, Bg2);
    assert GetField(a, Accent) == GetField(b, Accent) && GetField(a, WindowBg) == GetField(b, WindowBg);
    assert GetField(a, WindowHeader) == GetField(b, WindowHeader);
    assert GetField(a, TextPrimary) == GetField(b, TextPrimary) && GetField(a, TextSecondary) == GetField(b, TextSecondary);
  }

  function SetField(c: ThemeColors, f: ColorField, v: string): (r: ThemeColors)
    ensures GetField(r, f) == v
    ensures forall g :: g != f ==> GetField(r, g) == GetField(c, g)
  {
    match f
    case Bg1 => c.(bg1 := v)
    case Bg2 => c.(bg2 := v)
    case Accent => c.(accent := v)
    case WindowBg => c.(windowBg := v)
    case WindowHeader => c.(windowHeader := v)
    case TextPrimary => c.(textPrimary := v)
    case TextSecondary => c.(textSecondary := v)
  }

  function GetColor(a: AppTheme, t: ThemeName, f: ColorField): string {
    match t
    case Light => GetField(a.light, f)
    case Dark => GetField(a.dark, f)
  }

  /** `newColors[theme][field] = value` on a deep copy: exactly one colour
      of one theme changes. */
  function SetColor(a: AppTheme, t: ThemeName, f: ColorField, v: string): (r: AppTheme)
    ensures GetColor(r, t, f) == v
    ensures forall t', f' :: (t' != t || f' != f) ==> GetColor(r, t', f') == GetColor(a, t', f')
  {
    match t
    case Light => a.(light := SetField(a.light, f, v))
    case Dark => a.(dark := SetField(a.dark, f, v))
  }

  /** The default palette, identical in the application shell and the setup wizard. */
  const DefaultColors := AppTheme(
    ThemeColors("#e0e7ff", "#a5b4fc", "#4f46e5", "#f8fafc", "#e2e8f0", "#0f172a", "#475569"),
    ThemeColors("#0f172a", "#334155", "#6366f1", "#1e293b", "#020617", "#e2e8f0", "#94a3b8"))
}

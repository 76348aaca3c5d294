/** The first-run setup wizard: four steps (admin account, personal
    information, contact links, theme colours), the password gate in front
    of account creation, and the shape of the settings record and the
    about-me project written at the end. The account creation and the two
    document writes are backend calls; the model takes their outcomes as
    parameters and reports which writes were attempted. */
module SetupWizard {
  import opened Wrappers
  import opened Types
  import opened Text

  const TotalSteps := 4
  const MinPasswordLength := 6

  // ---------------------------------------------------------------------
  // The form
  // ---------------------------------------------------------------------

  datatype TextField =
    | PortfolioName | Email | Password
    | FullName | Tagline | AboutMe | Skills | AboutMeFeatures
    | ContactEmail | GithubUrl | LinkedinUrl | CvUrl | WallpaperUrl

  datatype SetupForm = SetupForm(
    portfolioName: string,
    email: string,
    password: string,
    fullName: string,
    tagline: string,
    aboutMe: string,
    skills: string,
    aboutMeFeatures: string,
    contactEmail: string,
    githubUrl: string,
    linkedinUrl: string,
    cvUrl: string,
    wallpaperUrl: string,
    colors: AppTheme)

  function GetText(f: SetupForm, t: TextField): string {
    match t
    case PortfolioName => f.portfolioName
    case Email => f.email
    case Password => f.password
    case FullName => f.fullName
    case Tagline => f.tagline
    case AboutMe => f.aboutMe
    case Skills => f.skills
    case AboutMeFeatures => f.aboutMeFeatures
    case ContactEmail => f.contactEmail
    case GithubUrl => f.githubUrl
    case LinkedinUrl => f.linkedinUrl
    case CvUrl => f.cvUrl
    case WallpaperUrl => f.wallpaperUrl
  }

  /** `handleChange`: `{ ...prev, [name]: value }` — one text field changes,
      the colours and every other field stay. */
  function SetText(f: SetupForm, t: TextField, v: string): (r: SetupForm)
    ensures GetText(r, t) == v
    ensures forall u :: u != t ==> GetText(r, u) == GetText(f, u)
    ensures r.colors == f.colors
  {
    match t
    case PortfolioName => f.(portfolioName := v)
    case Email => f.(email := v)
    case Password => f.(password := v)
    case FullName => f.(fullName := v)
    case Tagline => f.(tagline := v)
    case AboutMe => f.(aboutMe := v)
    case Skills => f.(skills := v)
    case AboutMeFeatures => f.(aboutMeFeatures := v)
    case ContactEmail => f.(contactEmail := v)
    case GithubUrl => f.(githubUrl := v)
    case LinkedinUrl => f.(linkedinUrl := v)
    case CvUrl => f.(cvUrl := v)
    case WallpaperUrl => f.(wallpaperUrl := v)
  }

  /** The text fields each step renders; the two about-me text areas only
      while the about-me page is requested. */
  predicate Shown(step: int, createAboutMe: bool, t: TextField) {
    match t
    case PortfolioName | Email | Password => step == 1
    case FullName | Tagline | Skills => step == 2
    case AboutMe | AboutMeFeatures => step == 2 && createAboutMe
    case ContactEmail | GithubUrl | LinkedinUrl | CvUrl | WallpaperUrl => step == 3
  }

  // ---------------------------------------------------------------------
  // Records written at the end
  // ---------------------------------------------------------------------

  /** The text fields the settings record leaves out. */
  predicate Omitted(t: TextField) {
    t == Email || t == Password || t == AboutMe || t == AboutMeFeatures
  }

  /** The settings document: the form without the credentials and the
      about-me texts, with the skills as a list and the completion flag. */
  datatype SettingsRecord = SettingsRecord(
    portfolioName: string,
    fullName: string,
    tagline: string,
    contactEmail: string,
    githubUrl: string,
    linkedinUrl: string,
    cvUrl: string,
    wallpaperUrl: string,
    colors: AppTheme,
    skills: seq<string>,
    setupComplete: bool)

  /** A text field as it appears in the settings record, if it does. */
  function RecordText(r: SettingsRecord, t: TextField): Option<string> {
    match t
    case PortfolioName => Some(r.portfolioName)
    case FullName => Some(r.fullName)
    case Tagline => Some(r.tagline)
    case ContactEmail => Some(r.contactEmail)
    case GithubUrl => Some(r.githubUrl)
    case LinkedinUrl => Some(r.linkedinUrl)
    case CvUrl => Some(r.cvUrl)
    case WallpaperUrl => Some(r.wallpaperUrl)
    case Email | Password | AboutMe | AboutMeFeatures | Skills => None
  }

  /** The rest-spread of the form, with `skills` parsed and `setupComplete`. */
  function Settings(f: SetupForm): (r: SettingsRecord)
    ensures r.setupComplete
    ensures r.colors == f.colors
    ensures forall x :: x in r.skills ==> ListItem(x)
  {
    SettingsRecord(f.portfolioName, f.fullName, f.tagline, f.contactEmail, f.githubUrl,
                   f.linkedinUrl, f.cvUrl, f.wallpaperUrl, f.colors, ParseList(f.skills), true)
  }

  /** Which text fields a settings record has at all. */
  lemma RecordFields(r: SettingsRecord, t: TextField)
    ensures RecordText(r, t).Some? <==> !Omitted(t) && t != Skills
  {
  }

  /** Every kept text field is copied into the settings record; the
      credentials, the about-me texts and the raw skills text are not in it. */
  lemma SettingsKeepsFields(f: SetupForm, t: TextField)
    ensures RecordText(Settings(f), t).Some? <==> !Omitted(t) && t != Skills
    ensures RecordText(Settings(f), t).Some? ==> RecordText(Settings(f), t).value == GetText(f, t)
  {
    var r := Settings(f);
    RecordFields(r, t);
    assert r.portfolioName == f.portfolioName && r.fullName == f.fullName && r.tagline == f.tagline;
    assert r.contactEmail == f.contactEmail && r.githubUrl == f.githubUrl && r.linkedinUrl == f.linkedinUrl;
    assert r.cvUrl == f.cvUrl && r.wallpaperUrl == f.wallpaperUrl;
  }

  /** Nothing typed into an omitted field reaches the settings record. */
  lemma SettingsIgnoreOmitted(f: SetupForm, t: TextField, v: string)
    requires Omitted(t)
    ensures Settings(SetText(f, t, v)) == Settings(f)
  {
    match t
    case Email =>
    case Password =>
    case AboutMe =>
    case AboutMeFeatures =>
  }

  /** Skills shown as a `", "`-list come back as the same list. */
  lemma SettingsSkillsRoundTrip(f: SetupForm, xs: seq<string>)
    requires forall i :: 0 <= i < |xs| ==> ListItem(xs[i])
    ensures Settings(SetText(f, Skills, Join(xs, ", "))).skills == xs
  {
    var g := SetText(f, Skills, Join(xs, ", "));
    assert g.skills == Join(xs, ", ") by { assert g == f.(skills := Join(xs, ", ")); }
    ParseJoinedList(xs);
  }

  const AboutMeId := "about-me"

  /** The about-me project: a README page built from the tagline, the about
      text and the two comma lists. */
  function AboutMeProject(f: SetupForm): (p: Project)
    ensures p.id == AboutMeId && p.links == NoLinks && !p.isFirestore
    ensures forall x :: x in p.features ==> ListItem(x)
  {
    Project(
      id := AboutMeId,
      name := "README.md",
      tagline := f.tagline,
      role := "Author",
      techStack := ParseList(f.skills),
      description := "A little bit about me, my passion, and my methodology.",
      longDescription := f.aboutMe,
      features := ParseList(f.aboutMeFeatures),
      screenshots := None,
      demoGif := None,
      architectureDiagram := None,
      links := NoLinks,
      icon := "FileText",
      isFirestore := false)
  }

  /** The about-me page is portfolio content, not a built-in window. */
  lemma AboutMeIsContent(f: SetupForm)
    ensures !IsSystemId(AboutMeProject(f).id)
  {
    assert AboutMeId[0] == 'a';
  }

  /** The about page lists the same skills as the settings record, shows the
      same tagline, and its text comes only from the form's about-me fields. */
  lemma AboutMeAgreesWithSettings(f: SetupForm)
    ensures AboutMeProject(f).techStack == Settings(f).skills
    ensures AboutMeProject(f).tagline == Settings(f).tagline
    ensures AboutMeProject(f).longDescription == f.aboutMe
    ensures AboutMeProject(f).features == ParseList(f.aboutMeFeatures)
  {
  }

  /** The credentials never reach the about-me project either. */
  lemma AboutMeIgnoresCredentials(f: SetupForm, t: TextField, v: string)
    requires t == Email || t == Password
    ensures AboutMeProject(SetText(f, t, v)) == AboutMeProject(f)
  {
    match t
    case Email =>
    case Password =>
  }

  // ---------------------------------------------------------------------
  // The wizard
  // ---------------------------------------------------------------------

  /** The wizard's state. `completed` records that `onSetupComplete` ran. */
  datatype Wizard = Wizard(
    step: int,
    form: SetupForm,
    createAboutMe: bool,
    error: string,
    completed: bool)

  /** The outcome of a backend call. */
  datatype Outcome = Succeeded | Failed(message: string)

  /** `err.message || fallback`. */
  function ErrorText(message: string, fallback: string): (r: string)
    ensures fallback != "" ==> r != ""
    ensures message != "" ==> r == message
    ensures message == "" ==> r == fallback
  {
    if message != "" then message else fallback
  }

  const PasswordTooShort := "Password should be at least 6 characters long."
  const AccountFallback := "An error occurred creating the admin user."
  const FinalFallback := "An error occurred during final setup."

  /** The wizard opens on step 1 with no credentials and the default
      palette; the other fields are prefilled. */
  function Initial(prefill: SetupForm): (w: Wizard)
    ensures Valid(w)
    ensures w.form.email == "" && w.form.password == "" && w.form.colors == DefaultColors
    ensures w.step == 1 && w.createAboutMe && w.error == "" && !w.completed
  {
    Wizard(1, prefill.(email := "", password := "", colors := DefaultColors), true, "", false)
  }

  /** Steps stay within 1..4, and completion happens on the last one. */
  predicate Valid(w: Wizard) {
    1 <= w.step <= TotalSteps && (w.completed ==> w.step == TotalSteps)
  }

  /** `handleAdminSubmit`: a short password is refused without calling the
      backend; otherwise the account creation's outcome decides between the
      next step and an error. The second result says whether the backend
      was called. */
  function AdminSubmit(w: Wizard, created: Outcome): (r: (Wizard, bool))
    ensures Utf16Length(w.form.password) < MinPasswordLength ==> !r.1 && r.0 == w.(error := PasswordTooShort)
    ensures Utf16Length(w.form.password) >= MinPasswordLength && created.Succeeded? ==>
              r.1 && r.0 == w.(step := w.step + 1, error := "")
    ensures Utf16Length(w.form.password) >= MinPasswordLength && created.Failed? ==>
              r.1 && r.0.step == w.step && r.0.error != "" && r.0 == w.(error := r.0.error)
  {
    if Utf16Length(w.form.password) < MinPasswordLength then (w.(error := PasswordTooShort), false)
    else match created
      case Succeeded => (w.(step := w.step + 1, error := ""), true)
      case Failed(m) => (w.(error := ErrorText(m, AccountFallback)), true)
  }

  /** Three characters beyond U+FFFF are six UTF-16 code units, so the
      gate lets such a three-character password through to the backend. */
  lemma AstralPasswordPasses(w: Wizard)
    requires w.form.password == "\U{1F600}\U{1F600}\U{1F600}"
    ensures |w.form.password| == 3 && AdminSubmit(w, Succeeded).1
  {
    var p := w.form.password;
    assert Utf16Units('\U{1F600}') == 2;
    assert Utf16Length(p[2..]) == 2 by { assert p[2..][1..] == ""; }
    assert Utf16Length(p[1..]) == 4 by { assert p[1..][1..] == p[2..]; }
  }

  /** A document the final step writes. */
  datatype Write = SettingsDoc(settings: SettingsRecord) | ProjectDoc(id: string, project: Project)

  /** Every write the final step attempts succeeds. */
  predicate AllWritten(w: Wizard, settingsWrite: Outcome, aboutMeWrite: Outcome) {
    settingsWrite.Succeeded? && (w.createAboutMe ==> aboutMeWrite.Succeeded?)
  }

  /** `handleFinalSubmit`: the settings record is written; only if that
      succeeds and the about-me page is requested is the project written.
      The wizard completes exactly when every attempted write succeeded,
      and otherwise shows an error. The step never moves. */
  function FinalSubmit(w: Wizard, settingsWrite: Outcome, aboutMeWrite: Outcome): (r: (Wizard, seq<Write>))
    ensures r.0.step == w.step && r.0.form == w.form && r.0.createAboutMe == w.createAboutMe
    ensures AllWritten(w, settingsWrite, aboutMeWrite) ==> r.0.completed && r.0.error == ""
    ensures !AllWritten(w, settingsWrite, aboutMeWrite) ==> r.0.completed == w.completed && r.0.error != ""
    ensures 1 <= |r.1| <= 2 && r.1[0] == SettingsDoc(Settings(w.form))
    ensures |r.1| == 2 <==> settingsWrite.Succeeded? && w.createAboutMe
    ensures |r.1| == 2 ==> r.1[1] == ProjectDoc(AboutMeId, AboutMeProject(w.form))
  {
    var settings := [SettingsDoc(Settings(w.form))];
    match settingsWrite
    case Failed(m) => (w.(error := ErrorText(m, FinalFallback)), settings)
    case Succeeded =>
      if !w.createAboutMe then (w.(error := "", completed := true), settings)
      else
        var writes := settings + [ProjectDoc(AboutMeId, AboutMeProject(w.form))];
        match aboutMeWrite
        case Failed(m) => (w.(error := ErrorText(m, FinalFallback)), writes)
        case Succeeded => (w.(error := "", completed := true), writes)
  }

  /** `handleColorChange` on a deep copy of the colours: exactly one colour
      of one theme changes and nothing else in the wizard. */
  function ColorChange(w: Wizard, t: ThemeName, c: ColorField, v: string): (r: Wizard)
    ensures GetColor(r.form.colors, t, c) == v
    ensures forall t', c' :: (t' != t || c' != c) ==> GetColor(r.form.colors, t', c') == GetColor(w.form.colors, t', c')
    ensures forall u :: GetText(r.form, u) == GetText(w.form, u)
    ensures r.(form := w.form) == w
  {
    w.(form := w.form.(colors := SetColor(w.form.colors, t, c, v)))
  }

  /** Putting the previous colour back restores the wizard. */
  lemma ColorChangeUndo(w: Wizard, t: ThemeName, c: ColorField, v: string)
    ensures ColorChange(ColorChange(w, t, c, v), t, c, GetColor(w.form.colors, t, c)) == w
  {
    var a := w.form.colors;
    var b := ColorChange(ColorChange(w, t, c, v), t, c, GetColor(a, t, c)).form.colors;
    assert forall g :: GetField(b.light, g) == GetField(a.light, g) by {
      forall g ensures GetField(b.light, g) == GetField(a.light, g) {
        assert GetColor(b, Light, g) == GetColor(a, Light, g);
      }
    }
    assert forall g :: GetField(b.dark, g) == GetField(a.dark, g) by {
      forall g ensures GetField(b.dark, g) == GetField(a.dark, g) {
        assert GetColor(b, Dark, g) == GetColor(a, Dark, g);
      }
    }
    FieldsDetermine(b.light, a.light);
    FieldsDetermine(b.dark, a.dark);
  }

  // ---------------------------------------------------------------------
  // Events
  // ---------------------------------------------------------------------

  /** What the user can do: type into a field, tick the about-me box, edit
      a colour, submit a step's form, or press Back. The backend outcomes
      travel with the submits. */
  datatype Event =
    | Edit(field: TextField, value: string)
    | SetCreateAboutMe(on: bool)
    | EditColor(theme: ThemeName, color: ColorField, value: string)
    | SubmitAccount(created: Outcome)
    | Continue
    | Back
    | SubmitFinal(settingsWrite: Outcome, aboutMeWrite: Outcome)

  /** Whether the control behind an event is on screen at this step: the
      account form on step 1, Continue on steps 2 and 3, Back on steps 2 to
      4, the colour editors and the final submit on step 4. */
  predicate Available(w: Wizard, e: Event) {
    !w.completed &&
    match e
    case Edit(t, _) => Shown(w.step, w.createAboutMe, t)
    case SetCreateAboutMe(_) => w.step == 2
    case EditColor(_, _, _) => w.step == 4
    case SubmitAccount(_) => w.step == 1
    case Continue => w.step == 2 || w.step == 3
    case Back => 2 <= w.step <= 4
    case SubmitFinal(_, _) => w.step == 4
  }

  /** One event; an event whose control is not on screen changes nothing. */
  function Apply(w: Wizard, e: Event): (r: Wizard)
    ensures Valid(w) ==> Valid(r)
    ensures r.step == w.step || r.step == w.step + 1 || r.step == w.step - 1
    ensures !Available(w, e) ==> r == w
  {
    if !Available(w, e) then w
    else match e
      case Edit(t, v) => w.(form := SetText(w.form, t, v))
      case SetCreateAboutMe(on) => w.(createAboutMe := on)
      case EditColor(t, c, v) => ColorChange(w, t, c, v)
      case SubmitAccount(created) => AdminSubmit(w, created).0
      case Continue => w.(step := w.step + 1)
      case Back => w.(step := w.step - 1)
      case SubmitFinal(s, a) => FinalSubmit(w, s, a).0
  }

  function Run(w: Wizard, es: seq<Event>): Wizard
    decreases |es|
  {
    if |es| == 0 then w else Run(Apply(w, es[0]), es[1..])
  }

  /** Whatever the user does, the step stays within 1..4 and the step title
      `stepTitles[step - 1]` exists. */
  lemma {:induction false} StepInRange(w: Wizard, es: seq<Event>)
    requires Valid(w)
    ensures Valid(Run(w, es))
    ensures 0 <= Run(w, es).step - 1 < TotalSteps
    decreases |es|
  {
    if |es| > 0 {
      StepInRange(Apply(w, es[0]), es[1..]);
    }
  }

  /** The only way off step 1 is a successful account creation with a
      password of at least six characters. */
  lemma LeaveFirstStep(w: Wizard, e: Event)
    requires w.step == 1 && Apply(w, e).step != 1
    ensures e == SubmitAccount(Succeeded) && Utf16Length(w.form.password) >= MinPasswordLength
    ensures Apply(w, e).step == 2
  {
  }

  /** Completion happens only on step 4, after the settings write and, when
      requested, the about-me write succeeded. */
  lemma CompleteOnlyAfterWrites(w: Wizard, e: Event)
    requires !w.completed && Apply(w, e).completed
    ensures w.step == TotalSteps && e.SubmitFinal?
    ensures e.settingsWrite.Succeeded? && (w.createAboutMe ==> e.aboutMeWrite.Succeeded?)
  {
  }

  /** A run that leaves step 1 contains a successful account creation. */
  lemma {:induction false} AccountBeforeProfile(w: Wizard, es: seq<Event>)
    requires w.step == 1 && Run(w, es).step != 1
    ensures SubmitAccount(Succeeded) in es
    decreases |es|
  {
    var w' := Apply(w, es[0]);
    if w'.step == 1 {
      AccountBeforeProfile(w', es[1..]);
    } else {
      LeaveFirstStep(w, es[0]);
    }
  }

  /** Setup completes only after an admin account was created. */
  lemma CompletionNeedsAccount(prefill: SetupForm, es: seq<Event>)
    requires Run(Initial(prefill), es).completed
    ensures SubmitAccount(Succeeded) in es
  {
    StepInRange(Initial(prefill), es);
    AccountBeforeProfile(Initial(prefill), es);
  }

  /** The password can only be typed on step 1. */
  lemma PasswordOnlyOnFirstStep(w: Wizard, e: Event)
    requires Apply(w, e).form.password != w.form.password
    ensures w.step == 1 && e == Edit(Password, Apply(w, e).form.password)
  {
  }

  // ---------------------------------------------------------------------
  // Progress bar
  // ---------------------------------------------------------------------

  /** The highlighted circles, one per step. */
  function Circles(step: int): (c: seq<bool>)
    ensures |c| == TotalSteps
  {
    seq(TotalSteps, i => step > i)
  }

  /** The highlighted connectors, one between each pair of circles. */
  function Connectors(step: int): (c: seq<bool>)
    ensures |c| == TotalSteps - 1
  {
    seq(TotalSteps - 1, i => step > i + 1)
  }

  function CountLit(bs: seq<bool>): (n: nat)
    ensures n <= |bs|
  {
    if |bs| == 0 then 0 else (if bs[0] then 1 else 0) + CountLit(bs[1..])
  }

  /** On step `s` the first `s` circles are lit and no others, and a
      connector is lit exactly when the circle it leads to is. */
  lemma ProgressShown(step: int)
    requires 1 <= step <= TotalSteps
    ensures CountLit(Circles(step)) == step
    ensures forall i :: 0 <= i < TotalSteps ==> (Circles(step)[i] <==> i < step)
    ensures forall i :: 0 <= i < TotalSteps - 1 ==> (Connectors(step)[i] <==> Circles(step)[i + 1])
  {
    var c := Circles(step);
    assert c == [step > 0, step > 1, step > 2, step > 3];
    assert c[1..] == [step > 1, step > 2, step > 3];
    assert c[1..][1..] == [step > 2, step > 3];
    assert c[1..][1..][1..] == [step > 3];
    assert c[1..][1..][1..][1..] == [];
    assert CountLit(c[1..][1..][1..]) == (if step > 3 then 1 else 0);
    assert CountLit(c[1..][1..]) == (if step > 2 then 1 else 0) + CountLit(c[1..][1..][1..]);
    assert CountLit(c[1..]) == (if step > 1 then 1 else 0) + CountLit(c[1..][1..]);
    assert CountLit(c) == 1 + CountLit(c[1..]);
  }
}

/** The portfolio page script: project cards and their lookup, the contact form
    that saves submissions to local storage, the stored-submissions summary, and
    the persisted light/dark theme. */
module PortfolioMain {
  import opened Options
  import opened Text
  import Email

  // ---------- Projects ----------

  datatype Project = Project(id: string, title: string, img: string, desc: string, url: string)

  /** One rendered project card: its `data-id`, its image, heading, text and link. */
  datatype Card = Card(dataId: string, imgSrc: string, imgAlt: string, heading: string,
                       body: string, href: string, linkText: string)

  /** The projects the page shows. */
  const Projects: seq<Project> := [
    Project("studybot", "Study Assistant Bot",
            "https://bairesdev.mo.cloudinary.net/blog/2023/06/Is-Python-good-for-software-development.jpg",
            "A Python-based personal study assistant that helps users organize tasks, take quizzes, and set reminders. Built with FastAPI, JSON storage, and SerpAPI integration.",
            "#"),
    Project("portfolio", "Personal Portfolio Website", "images/porto.png",
            "This responsive, multi-page site was designed from scratch to showcase my skills, experience, and contact information. Built with HTML, CSS, and JavaScript.",
            "#"),
    Project("rafting", "Rafting Adventure Site", "images/white water.png",
            "A class project focused on modern layout design using Grid and Flexbox, emphasizing usability and accessibility across devices.",
            "#")
  ]

  /** The card of one project. Both arms of the link-label conditional read
      "View Project", so the label never depends on the URL. */
  function CardFor(p: Project): Card {
    Card(p.id, p.img, p.title + " project preview", p.title, p.desc, p.url, "View Project")
  }

  /** `renderProjects`: one card per project, in array order. */
  function RenderProjects(ps: seq<Project>): (cards: seq<Card>)
    ensures |cards| == |ps|
    ensures forall i :: 0 <= i < |ps| ==> cards[i] == CardFor(ps[i])
  {
    if ps == [] then [] else [CardFor(ps[0])] + RenderProjects(ps[1..])
  }

  /** No two projects share an id. */
  predicate DistinctIds(ps: seq<Project>) {
    forall i, j :: 0 <= i < j < |ps| ==> ps[i].id != ps[j].id
  }

  /** Where `projects.find(pr => pr.id === id)` stops: the first position holding
      `id`, or nothing when no project has it. */
  function FindIndex(ps: seq<Project>, id: string): (r: Option<nat>)
    ensures r.Some? ==> r.value < |ps| && ps[r.value].id == id
    ensures r.Some? ==> forall j :: 0 <= j < r.value ==> ps[j].id != id
    ensures r.None? <==> forall j :: 0 <= j < |ps| ==> ps[j].id != id
  {
    if ps == [] then None
    else if ps[0].id == id then Some(0)
    else match FindIndex(ps[1..], id)
      case Some(k) => Some(k + 1)
      case None => None
  }

  /** `projects.find(pr => pr.id === id)`: the first project with that id, or
      nothing (`undefined`) when there is none. */
  function FindProject(ps: seq<Project>, id: string): (r: Option<Project>)
    ensures r.None? <==> forall j :: 0 <= j < |ps| ==> ps[j].id != id
    ensures r.Some? ==>
              exists i :: && 0 <= i < |ps| && ps[i] == r.value
                          && forall j :: 0 <= j < i ==> ps[j].id != id
    ensures r.Some? ==> r.value.id == id
  {
    match FindIndex(ps, id)
    case Some(k) => Some(ps[k])
    case None => None
  }

  datatype Modal = NotFound | Details(text: string)

  function ModalText(p: Project): string {
    "Project: " + p.title + "\n\n" + p.desc + "\n\n(External link: " + p.url + ")"
  }

  /** `showProjectModal`: the card's `data-id` may be undefined (`None`), which no
      project id equals. An id no project has takes the "not found" branch; any
      other id shows the first project that has it. */
  function ShowProjectModal(ps: seq<Project>, id: Option<string>): (r: Modal)
    ensures r.NotFound? <==> id.None? || forall j :: 0 <= j < |ps| ==> ps[j].id != id.value
    ensures r.Details? ==>
              exists i :: && 0 <= i < |ps| && ps[i].id == id.value && r.text == ModalText(ps[i])
                          && forall j :: 0 <= j < i ==> ps[j].id != id.value
  {
    match id
    case None => NotFound
    case Some(key) =>
      match FindIndex(ps, key)
      case Some(k) => Details(ModalText(ps[k]))
      case None => NotFound
  }

  /** Clicking any rendered card finds its project; when ids are distinct, the very
      project the card was rendered from. The card's `dataId` is taken to be what
      `dataset.id` reads back from the `data-id="..."` attribute text, which holds
      for ids without `"` or `&`, as all of `Projects` are. */
  lemma RenderedCardsResolve(ps: seq<Project>, i: int)
    requires 0 <= i < |ps|
    ensures ShowProjectModal(ps, Some(RenderProjects(ps)[i].dataId)).Details?
    ensures DistinctIds(ps) ==> FindProject(ps, RenderProjects(ps)[i].dataId) == Some(ps[i])
    ensures DistinctIds(ps) ==> ShowProjectModal(ps, Some(RenderProjects(ps)[i].dataId)) == Details(ModalText(ps[i]))
  {
    var id := RenderProjects(ps)[i].dataId;
    assert ps[i].id == id;
    if DistinctIds(ps) {
      var k := FindIndex(ps, id).value;
      assert k == i;
    }
  }

  /** The page's own projects have distinct ids, so each card opens its own project. */
  lemma ProjectIdsDistinct()
    ensures DistinctIds(Projects)
  {
    assert Projects[0].id == "studybot" && Projects[1].id == "portfolio" && Projects[2].id == "rafting";
  }

  // ---------- Contact form ----------

  /** The form's inputs; `None` is an input the form does not contain. */
  datatype ContactFields = ContactFields(name: Option<string>, email: Option<string>,
                                         subject: Option<string>, message: Option<string>)

  /** `input?.value.trim() || ""`: a missing input reads as the empty string. */
  function FieldValue(f: Option<string>): string {
    match f
    case Some(v) => Trim(v)
    case None => ""
  }

  /** A stored record. `id` and `date` come from the clock and are parameters here. */
  datatype Submission = Submission(id: int, name: string, email: string, subject: string,
                                   message: string, date: string)

  datatype Rejection = MissingRequired | InvalidEmail

  datatype Outcome = Rejected(reason: Rejection) | Saved(record: Submission)

  /** What the page keeps: the decoded `chijike_submissions` list and the
      `chijike_theme` string in local storage (`None`: the key is missing), and the
      `data-theme` attribute of the document element. */
  datatype Site = Site(submissions: Option<seq<Submission>>, theme: Option<string>,
                       dataTheme: Option<string>)

  /** `JSON.parse(localStorage.getItem(key)) || []`: a missing key is the empty list. */
  function StoredSubmissions(site: Site): (r: seq<Submission>)
    ensures site.submissions.None? ==> r == []
    ensures site.submissions.Some? ==> r == site.submissions.value
  {
    site.submissions.GetOr([])
  }

  /** Some required field (name, e-mail, message) is empty once trimmed. */
  predicate MissingRequiredField(f: ContactFields) {
    FieldValue(f.name) == "" || FieldValue(f.email) == "" || FieldValue(f.message) == ""
  }

  datatype SubmitResult = SubmitResult(outcome: Outcome, site: Site)

  /** The contact form's submit handler. The required-fields check comes first, the
      e-mail pattern second; a rejected submission leaves every part of the site as
      it was, and an accepted one appends its record (trimmed fields, subject ""
      when the input is missing) to the end of the stored list and touches nothing
      else. */
  function SubmitContact(site: Site, f: ContactFields, id: int, date: string): (r: SubmitResult)
    ensures r.outcome == Rejected(MissingRequired) <==> MissingRequiredField(f)
    ensures r.outcome == Rejected(InvalidEmail) <==>
              !MissingRequiredField(f) && !Email.IsEmail(FieldValue(f.email))
    ensures r.outcome.Rejected? ==> r.site == site
    ensures r.outcome.Saved? ==>
              && r.outcome.record == Submission(id, FieldValue(f.name), FieldValue(f.email),
                                                FieldValue(f.subject), FieldValue(f.message), date)
              && r.site == site.(submissions := Some(StoredSubmissions(site) + [r.outcome.record]))
  {
    var name, email, message := FieldValue(f.name), FieldValue(f.email), FieldValue(f.message);
    if name == "" || email == "" || message == "" then
      SubmitResult(Rejected(MissingRequired), site)
    else if !Email.IsValidEmail(email) then
      SubmitResult(Rejected(InvalidEmail), site)
    else
      var record := Submission(id, name, email, FieldValue(f.subject), message, date);
      SubmitResult(Saved(record), site.(submissions := Some(StoredSubmissions(site) + [record])))
  }

  /** A saved record grows the stored list by exactly that record at the end, keeps
      every earlier record, and holds non-empty trimmed fields and a well-formed
      e-mail address. */
  lemma SavedRecordAppended(site: Site, f: ContactFields, id: int, date: string)
    requires SubmitContact(site, f, id, date).outcome.Saved?
    ensures var r := SubmitContact(site, f, id, date);
            var before, after := StoredSubmissions(site), StoredSubmissions(r.site);
            && |after| == |before| + 1
            && after[..|before|] == before
            && after[|before|] == r.outcome.record
    ensures var rec := SubmitContact(site, f, id, date).outcome.record;
            && rec.name != "" && rec.message != "" && Email.IsEmail(rec.email)
            && Tidy(rec.name) && Tidy(rec.email) && Tidy(rec.subject) && Tidy(rec.message)
  {
    var r := SubmitContact(site, f, id, date);
    var before := StoredSubmissions(site);
    assert StoredSubmissions(r.site) == before + [r.outcome.record];
    assert (before + [r.outcome.record])[..|before|] == before;
  }

  // ---------- Saved-message preview ----------

  /** The ellipsis appended to a shortened message. */
  const Ellipsis: char := '\U{2026}'

  /** `m.slice(0, 120)` followed by the ellipsis when `m` is longer than 120. */
  function Preview(m: string): (r: string)
    ensures |r| <= 121
    ensures |m| <= 120 ==> r == m
    ensures |m| > 120 ==> |r| == 121 && r[..120] == m[..120] && r[120] == Ellipsis
  {
    m[..if |m| < 120 then |m| else 120] + (if |m| > 120 then [Ellipsis] else [])
  }

  /** The preview ends in an ellipsis it added exactly when `m` is longer than 120,
      and it is `m` itself exactly when `m` is at most 120 long or is 121 long with
      an ellipsis as its last character. */
  lemma PreviewShape(m: string)
    ensures |m| > 120 <==> |Preview(m)| == 121
    ensures Preview(m) == m <==> |m| <= 120 || (|m| == 121 && m[120] == Ellipsis)
  {
    if |m| == 121 && m[120] == Ellipsis {
      assert m == m[..120] + [Ellipsis];
    }
  }

  /** The "saved locally" notice shown after a successful submission. */
  datatype SavedNotice = SavedNotice(name: string, email: string, preview: string)

  /** The notice for a record: its name and e-mail, and the start of its message. */
  function NoticeFor(rec: Submission): (r: SavedNotice)
    ensures r.name == rec.name && r.email == rec.email
    ensures |r.preview| <= 121
    ensures |rec.message| <= 120 ==> r.preview == rec.message
    ensures |rec.message| > 120 ==> |r.preview| == 121 && r.preview[..120] == rec.message[..120] && r.preview[120] == Ellipsis
  {
    SavedNotice(rec.name, rec.email, Preview(rec.message))
  }

  /** After a saved submission, the notice names the sender by the trimmed name and a
      well-formed trimmed e-mail, and previews a non-empty message in at most 121
      characters, the whole of it when it fits in 120. */
  lemma NoticeAfterSave(site: Site, f: ContactFields, id: int, date: string)
    requires SubmitContact(site, f, id, date).outcome.Saved?
    ensures var n := NoticeFor(SubmitContact(site, f, id, date).outcome.record);
            && n.name == FieldValue(f.name) && n.name != ""
            && n.email == FieldValue(f.email) && Email.IsEmail(n.email)
            && 0 < |n.preview| <= 121
            && (|FieldValue(f.message)| <= 120 ==> n.preview == FieldValue(f.message))
  {
    SavedRecordAppended(site, f, id, date);
  }

  // ---------- Stored-submissions summary ----------

  function SummaryLine(s: Submission, formatDate: string -> string): string {
    "\U{2022} " + s.name + " (" + s.email + ") \U{2014} " + formatDate(s.date)
  }

  /** `showStoredSubmissions`: nothing when the stored list is empty, otherwise one
      line per stored record, in stored order. `formatDate` stands for the
      locale-dependent `toLocaleString`. */
  function StoredSummary(site: Site, formatDate: string -> string): (r: Option<seq<string>>)
    ensures r.None? <==> StoredSubmissions(site) == []
    ensures r.Some? ==> |r.value| == |StoredSubmissions(site)|
    ensures r.Some? ==> forall i :: 0 <= i < |r.value| ==>
              r.value[i] == SummaryLine(StoredSubmissions(site)[i], formatDate)
  {
    var list := StoredSubmissions(site);
    if list == [] then None
    else Some(seq(|list|, i requires 0 <= i < |list| => SummaryLine(list[i], formatDate)))
  }

  /** After a saved submission, the summary the next start-up logs keeps the earlier
      lines and ends with the new record's line (the submit handler itself logs
      nothing). */
  lemma SummaryAfterSave(site: Site, f: ContactFields, id: int, date: string, formatDate: string -> string)
    requires SubmitContact(site, f, id, date).outcome.Saved?
    ensures var r := SubmitContact(site, f, id, date);
            var lines := StoredSummary(r.site, formatDate);
            && lines.Some?
            && |lines.value| == |StoredSubmissions(site)| + 1
            && lines.value[|StoredSubmissions(site)|] == SummaryLine(r.outcome.record, formatDate)
    ensures var r := SubmitContact(site, f, id, date);
            var before := StoredSummary(site, formatDate);
            before.Some? ==> StoredSummary(r.site, formatDate).value[..|before.value|] == before.value
  {
    var r := SubmitContact(site, f, id, date);
    var list := StoredSubmissions(site);
    var list' := StoredSubmissions(r.site);
    assert list' == list + [r.outcome.record];
    var lines := StoredSummary(r.site, formatDate).value;
    assert lines[|list|] == SummaryLine(list'[|list|], formatDate);
    var before := StoredSummary(site, formatDate);
    if before.Some? {
      forall i | 0 <= i < |list|
        ensures lines[i] == before.value[i]
      {
        assert list'[i] == list[i];
      }
      assert lines[..|list|] == before.value;
    }
  }

  // ---------- Theme ----------

  /** `localStorage.getItem("chijike_theme") || "light"`: a missing key and the empty
      string (which is falsy) both read as "light". */
  function CurrentTheme(site: Site): (t: string)
    ensures t != ""
    ensures site.theme == None || site.theme == Some("") ==> t == "light"
    ensures site.theme.Some? && site.theme.value != "" ==> t == site.theme.value
  {
    match site.theme
    case Some(v) => if v == "" then "light" else v
    case None => "light"
  }

  /** `applyTheme`: the attribute and the stored value both become `t`. */
  function ApplyTheme(site: Site, t: string): (r: Site)
    ensures r.dataTheme == Some(t) && r.theme == Some(t)
    ensures t != "" ==> CurrentTheme(r) == t
    ensures r.submissions == site.submissions
  {
    site.(theme := Some(t), dataTheme := Some(t))
  }

  /** `toggleTheme`: "light" becomes "dark", every other stored theme becomes
      "light"; the attribute always agrees with storage afterwards. */
  function ToggleTheme(site: Site): (r: Site)
    ensures CurrentTheme(r) == "dark" <==> CurrentTheme(site) == "light"
    ensures CurrentTheme(r) == "dark" || CurrentTheme(r) == "light"
    ensures r.dataTheme == r.theme == Some(CurrentTheme(r))
    ensures r.submissions == site.submissions
  {
    ApplyTheme(site, if CurrentTheme(site) == "light" then "dark" else "light")
  }

  /** Start-up: apply the stored theme (default "light"). */
  function InitTheme(site: Site): (r: Site)
    ensures CurrentTheme(r) == CurrentTheme(site)
    ensures r.dataTheme == r.theme == Some(CurrentTheme(site))
    ensures r.submissions == site.submissions
  {
    ApplyTheme(site, CurrentTheme(site))
  }

  /** From "light" or "dark", two toggles restore the theme (and leave the attribute
      in step with it); from any other stored value they end on "dark". */
  lemma ToggleTwice(site: Site)
    ensures (CurrentTheme(site) == "light" || CurrentTheme(site) == "dark") ==>
              ToggleTheme(ToggleTheme(site)) == InitTheme(site)
    ensures (CurrentTheme(site) != "light" && CurrentTheme(site) != "dark") ==>
              CurrentTheme(ToggleTheme(ToggleTheme(site))) == "dark"
  {
  }

  /** Starting up twice is starting up once. */
  lemma InitThemeIdempotent(site: Site)
    ensures InitTheme(InitTheme(site)) == InitTheme(site)
  {
  }
}

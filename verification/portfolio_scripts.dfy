/** The second page script: a dark-mode toggle kept in local storage, a contact
    form that only checks for empty fields and records the visitor's name, the
    recent-visitors list, and the project cards. */
module PortfolioScripts {
  import opened Options
  import opened Text
  import Email

  /** The status line under the form. */
  datatype Notice = NoNotice | FillAllFields | ThankYou(name: string)

  /** What the page keeps: the `recentVisitors` array read once at load, the
      decoded `recentVisitors` and the `theme` values in local storage (`None`: the
      key is missing), whether the body carries the `dark-theme` class, the theme
      button's text, and the status line. */
  datatype Page = Page(visitors: seq<string>, storedVisitors: Option<seq<string>>,
                       storedTheme: Option<string>, dark: bool, buttonText: string,
                       notice: Notice)

  const LightModeText: string := "\U{2600}\U{FE0F} Light Mode"
  const DarkModeText: string := "\U{1F319} Dark Mode"

  /** `JSON.parse(localStorage.getItem("recentVisitors")) || []`. */
  function LoadVisitors(stored: Option<seq<string>>): (r: seq<string>)
    ensures stored.None? ==> r == []
    ensures stored.Some? ==> r == stored.value
  {
    stored.GetOr([])
  }

  // ---------- Theme ----------

  /** The button shows the label `toggleTheme` gives the current state: "Light Mode"
      when dark, "Dark Mode" when light. */
  predicate ButtonAgrees(p: Page) {
    p.buttonText == if p.dark then LightModeText else DarkModeText
  }

  /** `toggleTheme`: flips the dark class, stores "dark" or "light" to match the new
      state, and relabels the button; the visitors and status line are untouched. */
  function ToggleTheme(p: Page): (r: Page)
    ensures r.dark == !p.dark
    ensures r.storedTheme == Some(if r.dark then "dark" else "light")
    ensures r.buttonText == if r.dark then LightModeText else DarkModeText
    ensures ButtonAgrees(r)
    ensures r.visitors == p.visitors && r.storedVisitors == p.storedVisitors && r.notice == p.notice
  {
    var dark := !p.dark;
    p.(dark := dark,
       storedTheme := Some(if dark then "dark" else "light"),
       buttonText := if dark then LightModeText else DarkModeText)
  }

  /** `loadTheme`: only a stored value of exactly "dark" turns the dark class on;
      any other value, or none, leaves the page as it is. */
  function LoadTheme(p: Page): (r: Page)
    ensures p.storedTheme == Some("dark") ==> r.dark && r.buttonText == LightModeText
    ensures p.storedTheme != Some("dark") ==> r == p
    ensures r.visitors == p.visitors && r.storedVisitors == p.storedVisitors && r.storedTheme == p.storedTheme
    ensures r.notice == p.notice
  {
    if p.storedTheme == Some("dark") then p.(dark := true, buttonText := LightModeText) else p
  }

  /** Page load: read the visitors, start from the markup (whether its body already
      carries `dark-theme`, and the button's text), then apply the stored theme,
      which can only add the dark class. */
  function LoadPage(storedVisitors: Option<seq<string>>, storedTheme: Option<string>,
                    darkInMarkup: bool, buttonText: string): (r: Page)
    ensures r.visitors == LoadVisitors(storedVisitors) && r.storedVisitors == storedVisitors
    ensures r.dark <==> darkInMarkup || storedTheme == Some("dark")
    ensures r.buttonText == (if storedTheme == Some("dark") then LightModeText else buttonText)
    ensures r.storedTheme == storedTheme
    ensures r.notice == NoNotice
  {
    LoadTheme(Page(LoadVisitors(storedVisitors), storedVisitors, storedTheme, darkInMarkup, buttonText, NoNotice))
  }

  /** Two toggles restore the dark state and, when the button agreed with it, the
      button text. */
  lemma ToggleTwice(p: Page)
    ensures ToggleTheme(ToggleTheme(p)).dark == p.dark
    ensures ButtonAgrees(p) ==> ToggleTheme(ToggleTheme(p)).buttonText == p.buttonText
  {
  }

  /** A toggle to dark survives the next page load whatever the markup says. A toggle
      to light survives it exactly when the markup's body starts without `dark-theme`:
      the stored "light" is never applied, it only fails to add the class. */
  lemma ToggleSurvivesReload(p: Page, darkInMarkup: bool, buttonText: string)
    ensures var q := ToggleTheme(p);
            var r := LoadPage(q.storedVisitors, q.storedTheme, darkInMarkup, buttonText);
            && (q.dark ==> r.dark && r.buttonText == LightModeText)
            && (!q.dark ==> (r.dark <==> darkInMarkup))
  {
  }

  // ---------- Contact form ----------

  /** `handleFormSubmit`: a submission with an empty trimmed name, e-mail or message
      is refused and changes nothing but the status line; any other is accepted
      (the e-mail is not checked beyond being non-empty), the trimmed name is
      appended to the visitors and the whole list is written to storage. */
  function HandleFormSubmit(p: Page, name: string, email: string, message: string): (r: Page)
    ensures Trim(name) == "" || Trim(email) == "" || Trim(message) == "" ==>
              r == p.(notice := FillAllFields)
    ensures Trim(name) != "" && Trim(email) != "" && Trim(message) != "" ==>
              && r.visitors == p.visitors + [Trim(name)]
              && r.storedVisitors == Some(r.visitors)
              && r.notice == ThankYou(Trim(name))
    ensures r.storedTheme == p.storedTheme && r.dark == p.dark && r.buttonText == p.buttonText
  {
    var n, e, m := Trim(name), Trim(email), Trim(message);
    if n == "" || e == "" || m == "" then
      p.(notice := FillAllFields)
    else
      var visitors := p.visitors + [n];
      p.(visitors := visitors, storedVisitors := Some(visitors), notice := ThankYou(n))
  }

  /** Storage holds the in-memory visitor list: reloading would read it back. */
  predicate InSync(p: Page) {
    LoadVisitors(p.storedVisitors) == p.visitors
  }

  /** Loading a page puts it in sync, and submitting or toggling keeps it so. */
  lemma InSyncPreserved(p: Page, name: string, email: string, message: string,
                        storedVisitors: Option<seq<string>>, storedTheme: Option<string>,
                        darkInMarkup: bool, buttonText: string)
    ensures InSync(LoadPage(storedVisitors, storedTheme, darkInMarkup, buttonText))
    ensures InSync(p) ==> InSync(HandleFormSubmit(p, name, email, message))
    ensures InSync(p) ==> InSync(ToggleTheme(p))
  {
  }

  /** Any non-empty e-mail is accepted, however it is formed: "x" is not an address
      by the other page's pattern, yet a submission carrying it records the visitor. */
  lemma NoEmailFormatCheck(p: Page)
    ensures !Email.IsEmail("x")
    ensures HandleFormSubmit(p, "Ada", "x", "hello").visitors == p.visitors + ["Ada"]
  {
    if Email.IsEmail("x") {
      Email.EmailShape("x");
    }
    TrimOfTidy("Ada");
    TrimOfTidy("x");
    TrimOfTidy("hello");
  }

  // ---------- Recent visitors ----------

  function VisitorItem(v: string): string {
    "<li>" + v + "</li>"
  }

  /** `showRecentVisitors`: nothing is rendered for an empty list; otherwise one list
      item per visitor, in insertion order. */
  function RecentVisitors(visitors: seq<string>): (r: Option<seq<string>>)
    ensures r.None? <==> visitors == []
    ensures r.Some? ==> |r.value| == |visitors|
    ensures r.Some? ==> forall i :: 0 <= i < |visitors| ==> r.value[i] == VisitorItem(visitors[i])
  {
    if visitors == [] then None
    else Some(seq(|visitors|, i requires 0 <= i < |visitors| => VisitorItem(visitors[i])))
  }

  /** After an accepted submission, the next page load lists the visitors this page
      read at its own load, in order, and the new visitor last. Storage is overwritten
      with that in-memory list, so anything stored since this page loaded is lost. */
  lemma ReloadShowsNewVisitor(p: Page, name: string, email: string, message: string)
    requires Trim(name) != "" && Trim(email) != "" && Trim(message) != ""
    ensures var q := HandleFormSubmit(p, name, email, message);
            var shown := RecentVisitors(LoadVisitors(q.storedVisitors));
            && shown.Some?
            && |shown.value| == |p.visitors| + 1
            && shown.value[|p.visitors|] == VisitorItem(Trim(name))
            && (forall i :: 0 <= i < |p.visitors| ==> shown.value[i] == VisitorItem(p.visitors[i]))
  {
    var q := HandleFormSubmit(p, name, email, message);
    var vs := LoadVisitors(q.storedVisitors);
    assert vs == p.visitors + [Trim(name)];
    assert forall i :: 0 <= i < |p.visitors| ==> vs[i] == p.visitors[i];
  }

  // ---------- Projects ----------

  datatype Showcase = Showcase(title: string, description: string, image: string, link: string)

  /** One rendered card: image, heading, text and link. */
  datatype ShowcaseCard = ShowcaseCard(imgSrc: string, imgAlt: string, heading: string,
                                       body: string, href: string)

  /** The projects the page lists. */
  const ShowcaseProjects: seq<Showcase> := [
    Showcase("Study Assistant Bot",
             "A Python-based terminal assistant that manages study tasks, reminders, and quizzes. Includes API integration and will later become a web app.",
             "https://bairesdev.mo.cloudinary.net/blog/2023/06/Is-Python-good-for-software-development.jpg",
             "#"),
    Showcase("Personal Portfolio Website",
             "A responsive, multi-page site designed from scratch to showcase my skills, experience, and contact information. Built with HTML, CSS, and JavaScript.",
             "images/porto.png", "#"),
    Showcase("Rafting Company Website",
             "A clean, grid-based rafting website designed as part of WDD130 coursework, featuring About, Trips, and Contact pages.",
             "images/white water.png", "#")
  ]

  function ShowcaseCardFor(p: Showcase): ShowcaseCard {
    ShowcaseCard(p.image, p.title + " preview", p.title, p.description, p.link)
  }

  /** The loop of `displayProjects`: exactly one card per project, in array order. */
  method RenderShowcase(ps: seq<Showcase>) returns (cards: seq<ShowcaseCard>)
    ensures |cards| == |ps|
    ensures forall i :: 0 <= i < |ps| ==> cards[i] == ShowcaseCardFor(ps[i])
  {
    cards := [];
    for i := 0 to |ps|
      invariant |cards| == i
      invariant forall j :: 0 <= j < i ==> cards[j] == ShowcaseCardFor(ps[j])
    {
      cards := cards + [ShowcaseCardFor(ps[i])];
    }
  }

  /** `displayProjects`: the page shows its three projects, in the order listed,
      each card headed by its project's title and linking to its placeholder. */
  method DisplayProjects() returns (cards: seq<ShowcaseCard>)
    ensures |cards| == 3
    ensures cards[0].heading == "Study Assistant Bot"
    ensures cards[1].heading == "Personal Portfolio Website"
    ensures cards[2].heading == "Rafting Company Website"
    ensures forall i :: 0 <= i < |cards| ==> cards[i].href == "#" && cards[i].imgAlt == cards[i].heading + " preview"
    ensures forall i :: 0 <= i < |cards| ==> cards[i] == ShowcaseCardFor(ShowcaseProjects[i])
  {
    cards := RenderShowcase(ShowcaseProjects);
  }
}

# Portfolio page scripts, modelled in Dafny

This project models the behaviour of the two scripts of a static portfolio site:

- `portfolio/scripts/main.js`: renders the project cards, looks a project up by the
  card's `data-id`, validates the contact form (required fields first, then the
  e-mail pattern `^[^\s@]+@[^\s@]+\.[^\s@]+$`), appends an accepted submission to the
  `chijike_submissions` list in local storage, shows a 120-character preview of the
  saved message, summarises the stored submissions, and keeps a light/dark theme in
  `chijike_theme`.
- `portfolio/scripts/scripts.js`: a dark-mode toggle kept in the `theme` key, a
  contact form that only rejects empty fields and appends the visitor's name to the
  `recentVisitors` list, the recent-visitors list, and the project cards.

Everything is pure functions over immutable values. Local storage is explicit page
state: each key the scripts use is a field holding an already-decoded value, and
`None` stands for a missing key. The DOM parts that matter (the `data-theme`
attribute, the `dark-theme` class, the button text, the status line) are fields too.
The markup's initial state, meaning whether the body already carries `dark-theme` and
the button's text, is a parameter of `LoadPage`, since the scripts never set it.

Files and modules:

- `options.dfy` (`Options`): `Option`, for absent form inputs and missing storage keys.
- `text.dfy` (`Text`): `IsSpace`, the ECMAScript WhiteSpace and LineTerminator
  characters. `String.prototype.trim` and the regular-expression class `\s` use the
  same set, so both are modelled with this one predicate. `Trim` is proved to be the
  unique whitespace-framed infix with no whitespace at either end.
- `email.dfy` (`Email`): the e-mail pattern. `IsEmail` is the declarative reading: there
  exist `l` and `d` with `s == l + "@" + d`, where both parts are non-empty and hold no
  whitespace or '@', and `d` has a '.' that is neither its first nor its last
  character. `MatchesPattern` is the literal three-group reading. `IsValidEmail` is a
  one-pass scanner, a seven-state automaton. Lemmas prove that all three accept the
  same strings.
- `portfolio_main.dfy` (`PortfolioMain`): the `main.js` behaviour.
- `portfolio_scripts.dfy` (`PortfolioScripts`): the `scripts.js` behaviour.

Clock values (`Date.now()`, `toISOString()`) are the `id` and `date` parameters of
`SubmitContact`. Locale formatting (`toLocaleString()`) is the `formatDate`
parameter of `StoredSummary`.

## Model

| member | source | states |
|---|---|---|
| Text.SkipSpace | portfolio/scripts/main.js:106-108 | The leading-whitespace scan stops at the first character that is not whitespace, or at the end, and skips only whitespace |
| Text.SkipSpaceBack | portfolio/scripts/main.js:106-108 | The trailing-whitespace scan stops just after the last character that is not whitespace, and skips only whitespace |
| Text.Trim | portfolio/scripts/main.js:106-108 | `trim()` yields a string with no whitespace at either end, and the result is empty exactly when the input is all whitespace |
| Text.TrimFramed | portfolio/scripts/main.js:106-108 | The trimmed string sits inside the input with only whitespace before and after it |
| Text.TrimUnique | portfolio/scripts/main.js:106-108 | Any string with no whitespace at either end that sits in the input between whitespace-only margins is the trimmed string |
| Text.TrimCharacterized | portfolio/scripts/main.js:106-108 | Both directions: `r == Trim(s)` exactly when `r` has no whitespace at either end and sits in `s` between two whitespace-only margins |
| Text.TrimOfTidy | portfolio/scripts/scripts.js:30-32 | A string with no whitespace at either end trims to itself |
| Text.TrimIdempotent | portfolio/scripts/main.js:106-108 | Trimming twice gives the same result as trimming once |
| Email.IsValidEmail | portfolio/scripts/main.js:115-116 | `emailPattern.test` as a one-pass scan accepts exactly the strings `l@d` with both parts non-empty, free of whitespace and '@', and `d` holding a '.' that is neither its first nor its last character |
| Email.ScanAcceptsEmails | portfolio/scripts/main.js:115-116 | Both directions: the scanner ends in `Accept` exactly when the declarative e-mail predicate holds |
| Email.ScanStart | portfolio/scripts/main.js:115 | From the start state, a string is accepted exactly when it has an '@' past position 0 with part characters before it and a dotted domain after it |
| Email.ScanLocal | portfolio/scripts/main.js:115 | After the local part has begun, the rest is accepted exactly when it splits at some '@' into part characters and a dotted domain |
| Email.ScanAtSign | portfolio/scripts/main.js:115 | After the '@', the rest is accepted exactly when it is a non-empty part with an inner '.' |
| Email.ScanDomain | portfolio/scripts/main.js:115 | Inside the domain, the rest is accepted exactly when it is all part characters with a '.' before its last character |
| Email.ScanDot | portfolio/scripts/main.js:115 | After the separating '.', the rest is accepted exactly when it is a non-empty `[^\s@]+` |
| Email.ScanAccept | portfolio/scripts/main.js:115 | Once accepting, the scanner stays accepting exactly while it reads part characters |
| Email.ScanReject | portfolio/scripts/main.js:115 | A rejected prefix is never followed by acceptance |
| Email.PatternIsEmail | portfolio/scripts/main.js:115 | The literal reading `l@x.y` (three `[^\s@]+` groups) and the local-part/domain reading accept the same strings |
| Email.EmailIffSplitAt | portfolio/scripts/main.js:115 | A string is an address exactly when some '@' past position 0 splits it into a local part and a dotted domain |
| Email.EmailShape | portfolio/scripts/main.js:115 | Every accepted address has at least five characters and no whitespace, and it holds exactly one '@', which is not at position 0 |
| Email.EmailAcceptedExamples | portfolio/scripts/main.js:115 | "a@b.c" is accepted, and so is "a@b.." (the separating '.' may be followed by another '.') |
| Email.EmailRefusals | portfolio/scripts/main.js:115 | A string is never accepted if it has two '@'s, whitespace anywhere, or an '@' at position 0 |
| Email.EmailRejectedDots | portfolio/scripts/main.js:115 | "a@.c" and "a@b." are refused: the separating '.' may not open or end the domain |
| Email.EmailRejectedShapes | portfolio/scripts/main.js:115 | "@b.c", "a@b@c.d" and "a b@c.d" are refused |
| PortfolioMain.RenderProjects | portfolio/scripts/main.js:47-58 | One card per project, in array order; card `i` carries project `i`'s id as `data-id` plus its image, title, description and link |
| PortfolioMain.FindIndex | portfolio/scripts/main.js:74 | The search yields the first position whose id matches, and it yields nothing exactly when no project has the id |
| PortfolioMain.FindProject | portfolio/scripts/main.js:74 | `find` yields nothing exactly when no project has the id; otherwise the project at the first position holding it |
| PortfolioMain.ShowProjectModal | portfolio/scripts/main.js:73-81 | "Not found" exactly when the id is undefined or no project has it; otherwise the details of the first project with that id |
| PortfolioMain.RenderedCardsResolve | portfolio/scripts/main.js:47-78 | Looking up any rendered card's id always finds a project; with distinct ids it finds exactly the project that card came from. The `data-id` attribute is taken to read back as written, which holds for ids without `"` or `&` |
| PortfolioMain.ProjectIdsDistinct | portfolio/scripts/main.js:11-33 | The page's three projects have distinct ids |
| PortfolioMain.StoredSubmissions | portfolio/scripts/main.js:131 | A missing submissions key reads as the empty list, and a stored list is used as it is |
| PortfolioMain.SubmitContact | portfolio/scripts/main.js:103-133 | Rejected as "required fields" exactly when a trimmed name, e-mail or message is empty, so this check comes before the e-mail check. Rejected as "valid e-mail" exactly when all three are present and the e-mail is not an address. A rejection leaves the site unchanged. On acceptance, the record holds the trimmed fields (subject "" when the input is missing) and is appended to the stored list; the theme is untouched |
| PortfolioMain.SavedRecordAppended | portfolio/scripts/main.js:121-133 | On acceptance the stored list grows by exactly one record at the end and every earlier record is kept. The record's name and message are non-empty, its e-mail is a valid address, and all its text fields are trimmed |
| PortfolioMain.Preview | portfolio/scripts/main.js:143 | The preview is at most 121 characters. It equals the message when that is at most 120 characters; otherwise it is the first 120 characters followed by '…' |
| PortfolioMain.PreviewShape | portfolio/scripts/main.js:143 | Both directions: the preview is 121 characters long exactly when the message is longer than 120. The preview equals the message exactly when the message is at most 120 characters, or is 121 characters ending in '…' |
| PortfolioMain.NoticeFor | portfolio/scripts/main.js:139-145 | The "saved locally" notice shows the record's name and e-mail and a preview of at most 121 characters: the whole message when it fits in 120, otherwise its first 120 characters and '…' |
| PortfolioMain.NoticeAfterSave | portfolio/scripts/main.js:106-145 | After a saved submission the notice carries the trimmed, non-empty name, a trimmed well-formed e-mail, and a non-empty preview of at most 121 characters that is the whole trimmed message when that fits in 120 |
| PortfolioMain.StoredSummary | portfolio/scripts/main.js:184-190 | Nothing is logged exactly when the stored list is empty; otherwise one summary line per stored record, in order |
| PortfolioMain.SummaryAfterSave | portfolio/scripts/main.js:184-188 | After an accepted submission, the summary the next start-up logs keeps every earlier line and ends with the new record's line; the submit handler itself does not log it |
| PortfolioMain.CurrentTheme | portfolio/scripts/main.js:156 | The stored theme is read as "light" when the key is missing or holds the empty string (which is falsy), and as the stored value otherwise; the result is never empty |
| PortfolioMain.ApplyTheme | portfolio/scripts/main.js:151-154 | The attribute and the stored value both become the applied theme, and a non-empty theme is what is read back |
| PortfolioMain.ToggleTheme | portfolio/scripts/main.js:155-159 | The result is "dark" exactly when the current theme is "light"; it is always "light" or "dark"; attribute and storage agree afterwards; submissions are untouched |
| PortfolioMain.InitTheme | portfolio/scripts/main.js:197-198 | Start-up keeps the effective theme and puts the attribute and storage in step with it |
| PortfolioMain.ToggleTwice | portfolio/scripts/main.js:151-158 | From "light" or "dark", two toggles give the same site as start-up does. From any other stored value they end on "dark", so toggling is not an involution there |
| PortfolioMain.InitThemeIdempotent | portfolio/scripts/main.js:197-198 | Applying the saved theme twice gives the same site as applying it once |
| PortfolioScripts.LoadVisitors | portfolio/scripts/scripts.js:5 | A missing `recentVisitors` key yields the empty list; a stored list is used as it is |
| PortfolioScripts.ToggleTheme | portfolio/scripts/scripts.js:9-15 | The dark state flips. The stored value becomes "dark" when the new state is dark and "light" otherwise, and the button reads "☀️ Light Mode" when dark and "🌙 Dark Mode" otherwise. Visitors and status are untouched |
| PortfolioScripts.LoadTheme | portfolio/scripts/scripts.js:18-24 | Only a stored value of exactly "dark" turns dark mode on and relabels the button; any other or missing value leaves the page unchanged. Storage, visitors and status are never touched |
| PortfolioScripts.LoadPage | portfolio/scripts/scripts.js:1-24 | At page load the visitors are read from storage, and the page is dark exactly when the markup's body already carries `dark-theme` or the stored theme is "dark"; a stored "dark" relabels the button "☀️ Light Mode", otherwise it keeps its markup text; stored values are kept |
| PortfolioScripts.ToggleTwice | portfolio/scripts/scripts.js:9-15 | Two toggles restore the dark state, and they restore the button text when it was the label a toggle gives that state ("☀️ Light Mode" when dark, "🌙 Dark Mode" when light) |
| PortfolioScripts.ToggleSurvivesReload | portfolio/scripts/scripts.js:9-24 | A toggle to dark survives the next page load, with the button relabelled; a toggle to light survives it exactly when the markup's body starts without `dark-theme`, since a stored "light" is never applied |
| PortfolioScripts.HandleFormSubmit | portfolio/scripts/scripts.js:27-47 | An empty trimmed name, e-mail or message changes only the status line. Otherwise the trimmed name is appended at the end of the visitors and the whole list is persisted; the theme is untouched |
| PortfolioScripts.InSyncPreserved | portfolio/scripts/scripts.js:5-41 | Page load puts storage in step with the in-memory visitor list, and submitting or toggling keeps it so |
| PortfolioScripts.NoEmailFormatCheck | portfolio/scripts/scripts.js:34-40 | No format check: the e-mail "x" is not an address by the main page's pattern, yet a submission carrying it records the visitor |
| PortfolioScripts.RecentVisitors | portfolio/scripts/scripts.js:50-55 | Nothing is rendered exactly when the list is empty; otherwise one `<li>` per visitor, in insertion order |
| PortfolioScripts.ReloadShowsNewVisitor | portfolio/scripts/scripts.js:40-55 | After an accepted submission, the next page load lists the visitors this page read at its own load, in order, and then the new visitor: storage is overwritten with the in-memory list, whatever it held meanwhile |
| PortfolioScripts.RenderShowcase | portfolio/scripts/scripts.js:82-94 | The loop emits exactly one card per project, in array order |
| PortfolioScripts.DisplayProjects | portfolio/scripts/scripts.js:57-95 | The page shows its three projects in the listed order, each card showing its own project's image, alt text "<title> preview", title as heading, description and link "#" |

## Left out

- Wind chill (`scripts/place.js`, `country_page/scripts/place.js`): the formula is
  floating-point (`Math.pow(v, 0.16)`, then `toFixed(1)`). Dafny has no such floating
  point here, and the only other logic is a two-comparison guard.
- DOM lookups and their early returns: `if (!grid) return`, `if (!form) return`,
  `if (!projectGrid) return`, and creating the feedback element. Also event wiring,
  `form.reset()`, `alert` and `console.info`. These are browser effects. The model
  returns their inputs and outputs as values, such as `Modal`, the summary lines and
  `Notice`.
- `PortfolioScripts.HandleFormSubmit` assumes the three inputs and the `#form-message`
  element exist; in the script a missing one throws a TypeError, which is not modelled.
- PortfolioScripts.RecentVisitors: assumes the `#visitors` element exists; with a
  non-empty list and no such element the script throws a TypeError, and
  `displayProjects()` then never runs. That failure is not modelled.
- `PortfolioScripts.LoadTheme` and `PortfolioScripts.LoadPage` assume the theme button
  exists; with a stored "dark" and no button the script throws a TypeError at the
  relabel, which also stops the recent-visitors list and the project cards from being
  rendered. That failure is not modelled.
- The 800 ms `setTimeout` before the "saved locally" notice: the notice's content is
  `NoticeFor`, but the delay is time-dependent.
- `Date.now()`, `toISOString()` and `toLocaleString()`: nondeterministic or
  locale-dependent, so they are parameters.
- `JSON.parse` and `JSON.stringify`: storage holds already-decoded values. Stored text
  that decodes to something other than a list (including `null`, which
  `|| []` would also map to the empty list) is not modelled.
- `lazyLoadFallback` (`IntersectionObserver`): an asynchronous browser callback.
- The exact HTML text of cards, feedback and list items: cards are records of their
  fields. No HTML escaping is done by the scripts, and none is claimed.
- The whole `init` sequence of `main.js`: only its theme step (`InitTheme`) and the
  summary (`StoredSummary`) are modelled.
- PortfolioMain.Preview: counts Unicode scalar values where JavaScript's `length` and
  `slice` count UTF-16 code units, so for messages with characters outside the Basic
  Multilingual Plane the cut point differs from the script's.
- Text.Trim: works on Unicode scalar values, not UTF-16 code units; the two agree
  because every whitespace character lies in the Basic Multilingual Plane.

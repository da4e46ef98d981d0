# Portfolio project feed and typewriter heading, modelled in Dafny

This project models the two pieces of logic in a personal portfolio web site.

- **The project feed** (`GitHubProjects`, in `github_projects.dfy`). On mount the feed fetches the owner's repositories once. It shows either the live repositories or a fixed three-entry fallback catalogue with a "sample projects" banner. The model covers four parts. `Resolve` is the decision taken once the fetch has settled. `ToProject` maps a repository record to a card: hyphens become spaces, and description, tags and demo each get a default. `ShowsDemoLink` says when a card links to a demo. The class `GitHubProjectsFeed` has the component's `projects`, `loading` and `useFallback` state, and its `FetchRepos` method follows the source's early returns and its `try/catch/finally`. The network request is replaced by a `FetchOutcome`: a non-ok status, a body that is not an array, an array of records, or a throw. JavaScript truthiness is written out. `null`, a missing property and `""` all take the default, and only `fork: true` marks a fork.
- **The typewriter heading** (`Typewriter`, in `typewriter_title.dfy`). This is a step machine over `(currentIndex, displayedText, isDeleting)` and a fixed table of four titles. Time becomes two events. `Tick` is the typing or deleting timer running `handleTyping`. `PauseElapsed` is the pause timer set once a title is fully typed. The pending pause timer is an explicit field, `pausePending`. `HandleTyping` is the step as a function, stated for any table of titles. The class `TypewriterTitle` is proved to implement it on the four titles. JavaScript's `slice(0, end)` is `SliceTo`, including negative ends.

The model follows the code in several details that a reader of the page might expect to be otherwise:
- An empty `topics` array yields no tags. It does not fall back to the language, because an empty array is truthy in JavaScript (`HyphenatedRecordWithoutExtras`).
- A repository without a homepage gets the demo `"#"`, not an empty string.
- No "show more" toggle exists: the feed simply keeps the first six non-fork records.
- Only the non-fork filter is applied. There is no deployment-based filter.

The typewriter reproduces an as-written behaviour of the code exactly. Deleting from the empty text runs `slice(0, -1)`. That writes the title just deleted minus its last character, in the same step that advances the index (`DeletingFromEmptyWrapsAround`, `DeletionCycle`). The next typing step writes a prefix of the new title one character longer than that text. So only the very first title on mount is typed from the empty text. Each later title first appears as a prefix one character longer than the remnant of the previous title, clamped to its own length (`FirstAppearanceAfterWrap`). For the four titles that gives "BCA Student" whole, "Problem Sol", "Tech Enthusias" and, on wrap-around, "Full Stack Deve" (`TitleFirstAppearances`). The reachable-state invariant `Inv` allows this: outside deletion, the text may be a prefix of the previous title.

## Model

| member | source | states |
|---|---|---|
| GitHubProjects.ReplaceHyphens | components/ui/github-projects.tsx:100 | the result has the name's length and, position by position, a space where the name has a hyphen and the name's character elsewhere |
| GitHubProjects.TitleDeHyphenated | components/ui/github-projects.tsx:100 | a project's title has the name's length, contains no hyphen, keeps every non-hyphen character and has a space for every hyphen |
| GitHubProjects.DescriptionOrDefault | components/ui/github-projects.tsx:101 | the description is the record's own when it is a non-empty string, the fixed default sentence when it is null, missing or empty, and never empty |
| GitHubProjects.TagsFromTopicsOrLanguage | components/ui/github-projects.tsx:102 | tags are at most four; with topics present they are the first min(4, n) topics (none for an empty array); only with topics absent are they [language], or ["Code"] when the language is null or empty |
| GitHubProjects.DemoFromHomepage | components/ui/github-projects.tsx:103 | the demo is the homepage when non-empty, else "#"; a card shows a demo link (condition at lines 177 and 209) exactly when the homepage is a non-empty string other than "#" |
| GitHubProjects.ProjectDeterminedByRecord | components/ui/github-projects.tsx:99-106 | the code link is the record's URL, every mapped project is featured, and two records that agree on name, description, URL, homepage, language and topics map to the same project (id, stars, forks, update time and fork flag are ignored) |
| GitHubProjects.FallbackCatalogue | components/ui/github-projects.tsx:9-34 | the fallback catalogue has exactly three featured entries, all linking to the owner's profile and none showing a demo link |
| GitHubProjects.Tags | components/ui/github-projects.tsx:102 | at most four tags; with topics present they are a prefix of the topics; with topics absent there is exactly one non-empty tag |
| GitHubProjects.ToProject | components/ui/github-projects.tsx:99-106 | every mapped project has a hyphen-free title as long as the name, a non-empty description, at most four tags, the record's URL as code link, a non-empty demo, and is featured |
| GitHubProjects.ShowsDemoLink | components/ui/github-projects.tsx:177 | the demo-link condition (also at line 209) never holds for an entry of the fallback catalogue |
| GitHubProjects.FormatProjects | components/ui/github-projects.tsx:99-106 | mapping yields one project per record, in order: the i-th project is the i-th record mapped |
| GitHubProjects.NonForks | components/ui/github-projects.tsx:91 | the filter is no longer than its input, its multiset of records is contained in the input's, and it keeps exactly the records of the input that are not marked as forks (a missing fork flag counts as a non-fork); order is stated by NonForksAppend |
| GitHubProjects.NonForksAppend | components/ui/github-projects.tsx:91 | filtering a concatenation is the concatenation of the filtered parts, so input order is preserved |
| GitHubProjects.NonForksKeepsForkFree | components/ui/github-projects.tsx:91 | a list without forks passes the filter unchanged |
| GitHubProjects.NonForksIdempotent | components/ui/github-projects.tsx:91 | filtering twice equals filtering once |
| GitHubProjects.Resolve | components/ui/github-projects.tsx:71-108 | a successful settlement holds between one and six projects |
| GitHubProjects.FallbackExactly | components/ui/github-projects.tsx:71-96 | the fallback is chosen exactly on a non-ok status, a non-array or empty array body, an array without any non-fork record, or a throw |
| GitHubProjects.LoadedFirstNonForks | components/ui/github-projects.tsx:91-107 | with at least one non-fork record the feed loads min(6, k) projects, the i-th being the i-th non-fork record mapped |
| GitHubProjects.SettledNeverEmpty | components/ui/github-projects.tsx:93-112 | once settled the feed shows between one and six projects, and on the fallback path exactly three |
| GitHubProjects.HyphenatedRecordWithoutExtras | components/ui/github-projects.tsx:99-106 | a single non-fork record "my-app" with null description, empty homepage, empty topics and language TypeScript loads as the one project "my app" with the default description, no tags, demo "#" and no demo link |
| GitHubProjects.GitHubProjectsFeed.constructor | components/ui/github-projects.tsx:60-62 | on mount the projects list is empty, loading is on and the sample-data flag is off |
| GitHubProjects.GitHubProjectsFeed.FetchRepos | components/ui/github-projects.tsx:65-116 | after the fetch settles loading is off; on the fallback path the flag is raised and the catalogue installed; on success the mapped projects are installed and the flag keeps its previous value |
| GitHubProjects.GitHubProjectsFeed.Render | components/ui/github-projects.tsx:121-162 | the skeleton is rendered exactly while loading, the empty-state message exactly when loading is over with no projects, and otherwise the grid of all projects with the banner exactly when the sample-data flag is set |
| GitHubProjects.Mount | components/ui/github-projects.tsx:121-162 | after mount and settlement the component renders the grid, never the skeleton or the empty-state message, with one to six cards, and the sample-data banner exactly when the fallback catalogue is shown |
| Typewriter.SliceTo | components/ui/typewriter-title.tsx:26 | JavaScript slice(0, end) yields a prefix of the string, of length min(end, n) for a non-negative end and max(0, n + end) for a negative one |
| Typewriter.HandleTyping | components/ui/typewriter-title.tsx:24-37 | every step writes a prefix of the title at the index read when the step starts, and keeps the index within the title table |
| Typewriter.Run | components/ui/typewriter-title.tsx:39-42 | any number of timer ticks keeps the index within the title table |
| Typewriter.NextIndex | components/ui/typewriter-title.tsx:29 | the next index stays within the table: one more, or 0 after the last title |
| Typewriter.InitialInv | components/ui/typewriter-title.tsx:14-16 | the mount state (index 0, empty text, typing) satisfies the invariant |
| Typewriter.TickKeepsInv | components/ui/typewriter-title.tsx:24-37 | a tick preserves the invariant: index in range, a pending pause only on a fully typed title, a prefix of the current title while deleting, otherwise a prefix of the current or previous title |
| Typewriter.AfterPause | components/ui/typewriter-title.tsx:34 | the pause timer turns deleting on and consumes the pending pause, leaving index and text as they were |
| Typewriter.PauseKeepsInv | components/ui/typewriter-title.tsx:34 | the end of the pause preserves the invariant |
| Typewriter.IndexAdvancesOnlyFromEmpty | components/ui/typewriter-title.tsx:25-30 | with more than one title, the index changes if and only if the step deletes from empty text; then it becomes (index + 1) mod the number of titles and deleting stops; in every other step index and deleting flag are unchanged |
| Typewriter.TypingAddsOneCharacter | components/ui/typewriter-title.tsx:32 | typing on a proper prefix of the current title extends it by exactly the title's next character |
| Typewriter.TypedOutArmsPause | components/ui/typewriter-title.tsx:33-34 | typing on the full title leaves text, index and deleting flag unchanged and arms the pause |
| Typewriter.TypingClampsToTitle | components/ui/typewriter-title.tsx:32 | typing on text at most one character shorter than the title, or longer, shows the whole title |
| Typewriter.DeletingDropsOneCharacter | components/ui/typewriter-title.tsx:26 | deleting on a non-empty prefix of the current title drops its last character and changes nothing else |
| Typewriter.DeletingFromEmptyWrapsAround | components/ui/typewriter-title.tsx:26-30 | deleting from empty text writes the current title minus its last character, advances the index modulo the number of titles and stops deleting, in one step |
| Typewriter.TypesOut | components/ui/typewriter-title.tsx:31-36 | typing from any prefix of the current title shows after j ticks the title's first (length + j) characters, up to the full title, without changing index or flags |
| Typewriter.DeletesOut | components/ui/typewriter-title.tsx:25-27 | deleting from any prefix of the current title drops one character per tick, down to the empty text, still deleting, same index |
| Typewriter.FirstTitleTypedOut | components/ui/typewriter-title.tsx:6-16 | from mount the first title is fully shown after as many ticks as its length, and the next tick arms the pause |
| Typewriter.DeletionCycle | components/ui/typewriter-title.tsx:25-30 | from a fully typed title in deleting mode, length + 1 ticks reach the next index, typing, with the deleted title minus its last character on screen |
| Typewriter.FirstAppearanceAfterWrap | components/ui/typewriter-title.tsx:25-35 | for any table, deleting a non-empty title and typing once shows the next title's first min(n, m) characters, where n is the deleted title's length and m the next title's; the pause is armed only when the remnant already equals the next title |
| Typewriter.TitleFirstAppearances | components/ui/typewriter-title.tsx:6-11 | for the four titles, the first typing tick after each deletion shows "BCA Student" whole, then the first 11, 14 and 15 characters of the third, fourth and first titles |
| Typewriter.TypewriterTitle.constructor | components/ui/typewriter-title.tsx:14-16 | mount starts at index 0 with empty text, typing, no pause pending, and the invariant holds |
| Typewriter.TypewriterTitle.Tick | components/ui/typewriter-title.tsx:24-39 | a timer tick changes the state exactly as one handleTyping step and keeps the invariant |
| Typewriter.TypewriterTitle.PauseElapsed | components/ui/typewriter-title.tsx:34 | the pause timer turns deleting on with the full current title shown, and keeps the invariant |

## Left out

- The HTTP request, its URL and query, JSON decoding and console logging (components/ui/github-projects.tsx:67-80) are replaced by the `FetchOutcome` value the request settles to.
- A record whose fields have the wrong JSON types (for instance a null `name`, which would make `replace` throw into the `catch`) is not representable: `Repo` fields are typed. The model's `Threw` outcome stands for every throw.
- The `tags.slice(0, 4)` applied again while rendering (line 195) is not modelled separately. Mapped tags already have at most four entries, and so does every fallback entry.
- JSX markup, CSS classes, the skeleton cards, icons and badges are not modelled. `GitHubProjectsFeed.Render` keeps only the choice between skeleton, empty state and grid with or without the banner.
- React's effect scheduling, re-rendering and unmounting are not modelled, and neither are timer durations (typing 100 ms, deleting 50 ms, pause 2000 ms) and `clearTimeout`. Time is only the order of `Tick` and `PauseElapsed` events.
- Typewriter.TypewriterTitle.Tick: requires that no pause is pending. In the source no typing timer is scheduled while the pause is pending, because arming the pause leaves the state unchanged and the effect does not run again.
- The contact form, header, theme toggle, visibility-triggered animations and static content arrays have no logic worth modelling and are not part of this model.

/** The project feed of the portfolio page (components/ui/github-projects.tsx):
    how a settled repository fetch is classified, how each repository record
    becomes a displayed project, the fixed fallback catalogue that replaces a
    failed or empty fetch, and when a card shows a demo link. The network call
    itself is replaced by the way it settled (a `FetchOutcome`). */
module GitHubProjects {

  /** `None` stands for a JSON `null` or a property that is absent. */
  datatype Option<+T> = None | Some(value: T)

  /** A repository record as the code-hosting API returns it. */
  datatype Repo = Repo(
    id: int,
    name: string,
    description: Option<string>,
    htmlUrl: string,
    homepage: Option<string>,
    stargazersCount: int,
    forksCount: int,
    language: Option<string>,
    topics: Option<seq<string>>,
    updatedAt: string,
    fork: Option<bool>)

  /** A card of the feed. */
  datatype Project = Project(
    title: string,
    description: string,
    tags: seq<string>,
    github: string,
    demo: string,
    featured: bool)

  /** How the single fetch on mount settled. */
  datatype FetchOutcome =
    | NotOk                    // the response status was not ok
    | NonArray                 // the decoded body is not an array
    | Repos(items: seq<Repo>)  // the decoded body is an array of repository records
    | Threw                    // the request or the decoding threw

  /** What the feed shows once the fetch has settled: the fallback catalogue
      (with the sample-data banner) or the projects mapped from live records. */
  datatype Settlement = Fallback | Loaded(projects: seq<Project>)

  /** What the component renders. */
  datatype View =
    | Skeleton                                        // still loading
    | NoProjects                                      // the empty-state message
    | Grid(sampleBanner: bool, cards: seq<Project>)   // the card grid

  const MaxProjects: nat := 6
  const MaxTopics: nat := 4
  const DefaultDescription: string := "A project showcasing development skills and practical implementations."
  const DefaultTag: string := "Code"
  const NoDemo: string := "#"
  const OwnerProfile: string := "https://github.com/samyog7901"

  /** The hand-written catalogue shown whenever live data is unavailable. */
  const FallbackProjects: seq<Project> := [
    Project(
      "Online Bookshop System",
      "A comprehensive online bookshop with full CRUD backend functionality. Features include book management, user authentication, and order processing.",
      ["Node.js", "Express", "MongoDB", "REST API"],
      OwnerProfile, NoDemo, true),
    Project(
      "Web Development Portfolio",
      "A showcase project demonstrating practical web development skills with modern UI/UX design principles and responsive layouts.",
      ["React", "Tailwind CSS", "Next.js"],
      OwnerProfile, NoDemo, true),
    Project(
      "MERN Stack Project",
      "An ongoing full-stack project built with the MERN stack (MongoDB, Express, React, Node.js) featuring real-time updates and modern architecture.",
      ["MongoDB", "Express", "React", "Node.js"],
      OwnerProfile, NoDemo, true)
  ]

  function Min(a: nat, b: nat): nat { if a < b then a else b }

  /** JavaScript truthiness of an optional string: `null`, `undefined` and
      the empty string are falsy. */
  predicate Truthy(s: Option<string>) { s.Some? && s.value != "" }

  /** `!repo.fork`: only an explicit `true` marks a fork. */
  predicate IsFork(repo: Repo) { repo.fork == Some(true) }

  /** `name.replace(/-/g, " ")`: every hyphen becomes a space. */
  function ReplaceHyphens(s: string): (r: string)
    ensures |r| == |s|
    ensures forall i :: 0 <= i < |s| ==> r[i] == (if s[i] == '-' then ' ' else s[i])
  {
    if s == [] then [] else [if s[0] == '-' then ' ' else s[0]] + ReplaceHyphens(s[1..])
  }

  /** `repo.topics?.slice(0, 4) || [repo.language || "Code"]`: a topics array,
      even an empty one, is truthy, so the language is used only when the
      topics are absent. */
  function Tags(repo: Repo): (r: seq<string>)
    ensures |r| <= MaxTopics
    ensures repo.topics.Some? ==> r <= repo.topics.value
    ensures repo.topics.None? ==> |r| == 1 && r[0] != ""
  {
    match repo.topics
    case Some(ts) => ts[..Min(MaxTopics, |ts|)]
    case None => [if Truthy(repo.language) then repo.language.value else DefaultTag]
  }

  /** The repository-to-project mapping: a hyphen-free title as long as the
      name, a non-empty description, at most four tags, the record's URL as
      code link, a non-empty demo, and always featured. */
  function ToProject(repo: Repo): (p: Project)
    ensures |p.title| == |repo.name| && '-' !in p.title
    ensures p.description != "" && |p.tags| <= MaxTopics && p.demo != ""
    ensures p.github == repo.htmlUrl && p.featured
  {
    Project(
      ReplaceHyphens(repo.name),
      if Truthy(repo.description) then repo.description.value else DefaultDescription,
      Tags(repo),
      repo.htmlUrl,
      if Truthy(repo.homepage) then repo.homepage.value else NoDemo,
      true)
  }

  /** `repos.map(toProject)`. */
  function FormatProjects(repos: seq<Repo>): (ps: seq<Project>)
    ensures |ps| == |repos|
    ensures forall i :: 0 <= i < |repos| ==> ps[i] == ToProject(repos[i])
  {
    if repos == [] then [] else [ToProject(repos[0])] + FormatProjects(repos[1..])
  }

  /** `data.filter((repo) => !repo.fork)`. */
  function NonForks(repos: seq<Repo>): (r: seq<Repo>)
    ensures |r| <= |repos|
    ensures multiset(r) <= multiset(repos)
    ensures forall x :: x in r <==> x in repos && !IsFork(x)
  {
    if repos == [] then []
    else
      assert repos == [repos[0]] + repos[1..];
      (if IsFork(repos[0]) then [] else [repos[0]]) + NonForks(repos[1..])
  }

  /** The decision `fetchRepos` takes once the fetch has settled. */
  function Resolve(outcome: FetchOutcome): (s: Settlement)
    ensures s.Loaded? ==> 1 <= |s.projects| <= MaxProjects
  {
    match outcome
    case NotOk => Fallback
    case NonArray => Fallback
    case Threw => Fallback
    case Repos(items) =>
      if |items| == 0 then Fallback
      else
        var nonForkRepos := NonForks(items);
        if |nonForkRepos| == 0 then Fallback
        else Loaded(FormatProjects(nonForkRepos[..Min(MaxProjects, |nonForkRepos|)]))
  }

  /** `project.demo && project.demo !== "#"`: whether a card links to a
      demo. No entry of the fallback catalogue does. */
  predicate ShowsDemoLink(p: Project)
    ensures ShowsDemoLink(p) ==> p !in FallbackProjects
  {
    p.demo != "" && p.demo != NoDemo
  }

  /** The projects a settlement displays. */
  function Displayed(s: Settlement): seq<Project>
  {
    match s
    case Fallback => FallbackProjects
    case Loaded(ps) => ps
  }

  // ----- Properties of the mapping -----

  /** The title is the name with every hyphen turned into a space: same
      length, no hyphen left, every other character kept. */
  lemma TitleDeHyphenated(repo: Repo)
    ensures |ToProject(repo).title| == |repo.name|
    ensures '-' !in ToProject(repo).title
    ensures forall i :: 0 <= i < |repo.name| && repo.name[i] != '-' ==> ToProject(repo).title[i] == repo.name[i]
    ensures forall i :: 0 <= i < |repo.name| && repo.name[i] == '-' ==> ToProject(repo).title[i] == ' '
  {
  }

  /** The description is the record's own when it is a non-empty string and
      the default sentence otherwise; it is never empty. */
  lemma DescriptionOrDefault(repo: Repo)
    ensures Truthy(repo.description) ==> ToProject(repo).description == repo.description.value
    ensures !Truthy(repo.description) ==> ToProject(repo).description == DefaultDescription
    ensures ToProject(repo).description != ""
  {
  }

  /** Tags: at most four leading topics when topics are present (none for an
      empty topics array); only when they are absent the language, or "Code". */
  lemma TagsFromTopicsOrLanguage(repo: Repo)
    ensures |ToProject(repo).tags| <= MaxTopics
    ensures repo.topics.Some? ==>
      ToProject(repo).tags <= repo.topics.value &&
      |ToProject(repo).tags| == Min(MaxTopics, |repo.topics.value|)
    ensures repo.topics == Some([]) ==> ToProject(repo).tags == []
    ensures repo.topics.None? && Truthy(repo.language) ==> ToProject(repo).tags == [repo.language.value]
    ensures repo.topics.None? && !Truthy(repo.language) ==> ToProject(repo).tags == [DefaultTag]
  {
  }

  /** The demo is the homepage when it is a non-empty string and "#"
      otherwise, and a card shows a demo link exactly when the homepage is a
      non-empty string other than "#". */
  lemma DemoFromHomepage(repo: Repo)
    ensures Truthy(repo.homepage) ==> ToProject(repo).demo == repo.homepage.value
    ensures !Truthy(repo.homepage) ==> ToProject(repo).demo == NoDemo
    ensures ShowsDemoLink(ToProject(repo)) <==> Truthy(repo.homepage) && repo.homepage.value != NoDemo
  {
  }

  /** The code link is the record's URL and every mapped project is featured;
      nothing but the name, description, URL, homepage, language and topics
      is consulted. */
  lemma ProjectDeterminedByRecord(a: Repo, b: Repo)
    ensures ToProject(a).github == a.htmlUrl && ToProject(a).featured
    ensures a.name == b.name && a.description == b.description && a.htmlUrl == b.htmlUrl &&
            a.homepage == b.homepage && a.language == b.language && a.topics == b.topics
            ==> ToProject(a) == ToProject(b)
  {
  }

  /** The fallback catalogue has three featured entries, none with a demo link. */
  lemma FallbackCatalogue()
    ensures |FallbackProjects| == 3
    ensures forall p :: p in FallbackProjects ==> p.featured && !ShowsDemoLink(p) && p.github == OwnerProfile
  {
  }

  /** Filtering keeps the input order: it distributes over concatenation. */
  lemma {:induction false} NonForksAppend(a: seq<Repo>, b: seq<Repo>)
    ensures NonForks(a + b) == NonForks(a) + NonForks(b)
  {
    if a == [] {
      assert a + b == b;
    } else {
      assert (a + b)[1..] == a[1..] + b;
      NonForksAppend(a[1..], b);
    }
  }

  /** A list without forks is left unchanged by the filter. */
  lemma {:induction false} NonForksKeepsForkFree(repos: seq<Repo>)
    requires forall x :: x in repos ==> !IsFork(x)
    ensures NonForks(repos) == repos
  {
    if repos != [] {
      assert repos[0] in repos;
      assert forall x :: x in repos[1..] ==> x in repos;
      NonForksKeepsForkFree(repos[1..]);
      assert repos == [repos[0]] + repos[1..];
    }
  }

  /** Filtering twice is filtering once. */
  lemma NonForksIdempotent(repos: seq<Repo>)
    ensures NonForks(NonForks(repos)) == NonForks(repos)
  {
    NonForksKeepsForkFree(NonForks(repos));
  }

  // ----- Properties of the fallback policy -----

  /** The fallback is taken exactly on a non-ok status, a body that is not an
      array or is an empty one, an array without a non-fork record, or a throw. */
  lemma FallbackExactly(outcome: FetchOutcome)
    ensures Resolve(outcome) == Fallback <==>
      outcome.NotOk? || outcome.NonArray? || outcome.Threw? ||
      (outcome.Repos? && (|outcome.items| == 0 || NonForks(outcome.items) == []))
  {
  }

  /** On success the projects are the first min(6, k) non-fork records of the
      k in the array, in input order, one project per record. */
  lemma LoadedFirstNonForks(items: seq<Repo>)
    requires NonForks(items) != []
    ensures Resolve(Repos(items)).Loaded?
    ensures var ps := Resolve(Repos(items)).projects;
      |ps| == Min(MaxProjects, |NonForks(items)|) &&
      forall i :: 0 <= i < |ps| ==> ps[i] == ToProject(NonForks(items)[i])
  {
    assert |items| != 0;
  }

  /** Once settled the feed is never empty: it is the three-entry catalogue
      or between one and six mapped records. */
  lemma SettledNeverEmpty(outcome: FetchOutcome)
    ensures 1 <= |Displayed(Resolve(outcome))| <= MaxProjects
    ensures Resolve(outcome) == Fallback ==> |Displayed(Resolve(outcome))| == 3
  {
  }

  /** A record with a hyphenated name, no description, empty topics and no
      homepage: an empty topics array yields no tags, and no demo link. */
  lemma HyphenatedRecordWithoutExtras(id: int, url: string)
    ensures var repo := Repo(id, "my-app", None, url, Some(""), 0, 0, Some("TypeScript"), Some([]), "", Some(false));
      Resolve(Repos([repo])) == Loaded([Project("my app", DefaultDescription, [], url, NoDemo, true)]) &&
      !ShowsDemoLink(ToProject(repo))
  {
    var repo := Repo(id, "my-app", None, url, Some(""), 0, 0, Some("TypeScript"), Some([]), "", Some(false));
    assert ReplaceHyphens("my-app") == "my app";
    assert NonForks([repo]) == [repo];
  }

  /** The component's state: the projects list, the loading flag and the
      sample-data flag. */
  class GitHubProjectsFeed {
    var projects: seq<Project>
    var loading: bool
    var useFallback: bool

    /** The state on mount. */
    constructor ()
      ensures projects == [] && loading && !useFallback
    {
      projects := [];
      loading := true;
      useFallback := false;
    }

    /** `fetchRepos` after the request settled with `outcome`. On the
        fallback path it raises the sample-data flag and installs the
        catalogue; on success it installs the mapped projects and leaves the
        flag as it was. Either way loading ends. */
    method FetchRepos(outcome: FetchOutcome)
      modifies this
      ensures !loading
      ensures Resolve(outcome) == Fallback ==> useFallback && projects == FallbackProjects
      ensures Resolve(outcome).Loaded? ==>
        useFallback == old(useFallback) && projects == Resolve(outcome).projects
    {
      match outcome {
        case NotOk =>
          useFallback := true;
          projects := FallbackProjects;
          loading := false;
          return;
        case NonArray =>
          useFallback := true;
          projects := FallbackProjects;
          loading := false;
          return;
        case Repos(items) =>
          if |items| == 0 {
            useFallback := true;
            projects := FallbackProjects;
            loading := false;
            return;
          }
          var nonForkRepos := NonForks(items);
          if |nonForkRepos| == 0 {
            useFallback := true;
            projects := FallbackProjects;
          } else {
            projects := FormatProjects(nonForkRepos[..Min(MaxProjects, |nonForkRepos|)]);
          }
        case Threw =>
          useFallback := true;
          projects := FallbackProjects;
      }
      loading := false;
    }

    /** The render decision: skeleton while loading, the empty-state message
        for an empty list, otherwise the grid with the sample-data banner when
        the flag is set. */
    function Render(): (v: View)
      reads this
      ensures v.Skeleton? <==> loading
      ensures v.NoProjects? <==> !loading && projects == []
      ensures v.Grid? ==> v.cards == projects && v.cards != [] && v.sampleBanner == useFallback
    {
      if loading then Skeleton
      else if |projects| == 0 then NoProjects
      else Grid(useFallback, projects)
    }
  }

  /** Mounting the feed and letting the fetch settle with `outcome`: the grid
      is shown, never the empty state, with one to six cards, and the banner
      is shown exactly when the fallback catalogue is. */
  method Mount(outcome: FetchOutcome) returns (view: View)
    ensures view.Grid?
    ensures 1 <= |view.cards| <= MaxProjects
    ensures view.sampleBanner <==> Resolve(outcome) == Fallback
    ensures view.sampleBanner ==> view.cards == FallbackProjects
    ensures !view.sampleBanner ==> view.cards == Resolve(outcome).projects
  {
    var feed := new GitHubProjectsFeed();
    assert feed.Render() == Skeleton;
    feed.FetchRepos(outcome);
    view := feed.Render();
  }
}

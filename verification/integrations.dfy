/**
  The integrations dialog: a fixed list of service records (one Supabase
  database, one GitHub repository), two setup forms, and the handlers that
  connect every record of a kind from a filled form or disconnect one record
  by id. The dialog lists the records in two tabs, "available" and
  "connected", by filtering on the status. The sync time comes from the clock
  and is a parameter (`now`) of the connect handlers.
 */
module Integrations {
  import opened Wrappers

  datatype Kind = Supabase | Github

  /** The source's status union also has an error case, which no handler ever sets. */
  datatype Status = Connected | Disconnected | Failed

  /** The Supabase setup form. */
  datatype SupabaseForm = SupabaseForm(url: string, anonKey: string, serviceKey: string)

  /** The GitHub setup form. */
  datatype GithubForm = GithubForm(token: string, repository: string, branch: string)

  /** The `config` field: `null`, or a copy of the form that was used to connect. */
  datatype Config =
    | NoConfig
    | SupabaseConfig(supabase: SupabaseForm)
    | GithubConfig(github: GithubForm)

  datatype Integration = Integration(
    id: string,
    name: string,
    kind: Kind,
    status: Status,
    description: string,
    lastSync: Option<string>,
    config: Config)

  datatype Tab = AvailableTab | ConnectedTab

  datatype Modal = Modal(
    integrations: seq<Integration>,
    supabaseForm: SupabaseForm,
    githubForm: GithubForm,
    showSupabaseSetup: bool,
    showGithubSetup: bool,
    activeTab: Tab)

  const EmptySupabaseForm: SupabaseForm := SupabaseForm("", "", "")
  const EmptyGithubForm: GithubForm := GithubForm("", "", "main")

  const InitialIntegrations: seq<Integration> := [
    Integration("supabase-1", "Supabase Database", Supabase, Disconnected,
      "Connect your Supabase database for real-time data storage and authentication", None, NoConfig),
    Integration("github-1", "GitHub Repository", Github, Disconnected,
      "Sync your code with GitHub repository for version control and collaboration", None, NoConfig)
  ]

  const Initial: Modal := Modal(InitialIntegrations, EmptySupabaseForm, EmptyGithubForm, false, false, AvailableTab)

  /** The records shown under "connected". */
  function ConnectedOnes(xs: seq<Integration>): (r: seq<Integration>)
    ensures |r| <= |xs|
    ensures forall x | x in r :: x.status == Connected
  {
    if |xs| == 0 then []
    else (if xs[0].status == Connected then [xs[0]] else []) + ConnectedOnes(xs[1..])
  }

  /** The records shown under "available": everything not connected, an errored record included. */
  function AvailableOnes(xs: seq<Integration>): (r: seq<Integration>)
    ensures |r| <= |xs|
    ensures forall x | x in r :: x.status != Connected
  {
    if |xs| == 0 then []
    else (if xs[0].status != Connected then [xs[0]] else []) + AvailableOnes(xs[1..])
  }

  /** Between them the two tabs hold every record exactly as often as the list does. */
  lemma {:induction false} TabsMultiset(xs: seq<Integration>)
    ensures multiset(ConnectedOnes(xs)) + multiset(AvailableOnes(xs)) == multiset(xs)
  {
    if |xs| > 0 {
      var h := xs[0];
      TabsMultiset(xs[1..]);
      assert multiset(xs) == multiset{h} + multiset(xs[1..]) by {
        assert xs == [h] + xs[1..];
      }
      if h.status == Connected {
        assert ConnectedOnes(xs) == [h] + ConnectedOnes(xs[1..]);
        assert AvailableOnes(xs) == AvailableOnes(xs[1..]);
      } else {
        assert ConnectedOnes(xs) == ConnectedOnes(xs[1..]);
        assert AvailableOnes(xs) == [h] + AvailableOnes(xs[1..]);
      }
    }
  }

  /** The two tabs partition the records: no record is in both, every record is in one, and
      the counts on the two tab headers add up to the number of records. */
  lemma TabsPartition(xs: seq<Integration>)
    ensures multiset(ConnectedOnes(xs)) + multiset(AvailableOnes(xs)) == multiset(xs)
    ensures |ConnectedOnes(xs)| + |AvailableOnes(xs)| == |xs|
    ensures forall x | x in xs :: (x in ConnectedOnes(xs) <==> x.status == Connected)
    ensures forall x | x in xs :: (x in AvailableOnes(xs) <==> x.status != Connected)
  {
    TabsMultiset(xs);
    assert |multiset(xs)| == |xs|;
    forall x | x in xs
      ensures x in ConnectedOnes(xs) || x in AvailableOnes(xs)
    {
      assert x in multiset(xs);
    }
  }

  /** `handleSupabaseConnect`'s guard and the enabled state of its button: a URL and an anon key. */
  predicate SupabaseReady(form: SupabaseForm) {
    form.url != "" && form.anonKey != ""
  }

  /** `handleGithubConnect`'s guard and the enabled state of its button: a token and a repository. */
  predicate GithubReady(form: GithubForm) {
    form.token != "" && form.repository != ""
  }

  /** Mark every record of `kind` connected with the form and the sync time; others are left as they are. */
  function ConnectKind(xs: seq<Integration>, kind: Kind, form: Config, now: string): (r: seq<Integration>)
    ensures |r| == |xs|
    ensures forall k | 0 <= k < |xs| && xs[k].kind == kind ::
              r[k] == xs[k].(status := Connected, lastSync := Some(now), config := form)
    ensures forall k | 0 <= k < |xs| && xs[k].kind != kind :: r[k] == xs[k]
  {
    seq(|xs|, k requires 0 <= k < |xs| =>
      if xs[k].kind == kind then xs[k].(status := Connected, lastSync := Some(now), config := form) else xs[k])
  }

  /** `handleSupabaseConnect`: with a URL and an anon key, connect the Supabase records, hide the
      setup form and clear it; otherwise do nothing. */
  function SupabaseConnect(m: Modal, now: string): (r: Modal)
    ensures !SupabaseReady(m.supabaseForm) ==> r == m
    ensures SupabaseReady(m.supabaseForm) ==>
              && r.integrations == ConnectKind(m.integrations, Supabase, SupabaseConfig(m.supabaseForm), now)
              && r.supabaseForm == EmptySupabaseForm && !r.showSupabaseSetup
              && r.githubForm == m.githubForm && r.showGithubSetup == m.showGithubSetup
              && r.activeTab == m.activeTab
  {
    if SupabaseReady(m.supabaseForm)
    then m.(integrations := ConnectKind(m.integrations, Supabase, SupabaseConfig(m.supabaseForm), now),
            showSupabaseSetup := false, supabaseForm := EmptySupabaseForm)
    else m
  }

  /** `handleGithubConnect`: with a token and a repository, connect the GitHub records, hide the
      setup form and reset it to an empty token and repository on branch "main"; otherwise do nothing. */
  function GithubConnect(m: Modal, now: string): (r: Modal)
    ensures !GithubReady(m.githubForm) ==> r == m
    ensures GithubReady(m.githubForm) ==>
              && r.integrations == ConnectKind(m.integrations, Github, GithubConfig(m.githubForm), now)
              && r.githubForm == EmptyGithubForm && !r.showGithubSetup
              && r.supabaseForm == m.supabaseForm && r.showSupabaseSetup == m.showSupabaseSetup
              && r.activeTab == m.activeTab
  {
    if GithubReady(m.githubForm)
    then m.(integrations := ConnectKind(m.integrations, Github, GithubConfig(m.githubForm), now),
            showGithubSetup := false, githubForm := EmptyGithubForm)
    else m
  }

  /** The connect button is disabled exactly when pressing it would change nothing. */
  lemma ConnectDisabledIffNoEffect(m: Modal, now: string)
    ensures (m.supabaseForm.url == "" || m.supabaseForm.anonKey == "") <==> SupabaseConnect(m, now) == m
    ensures (m.githubForm.token == "" || m.githubForm.repository == "") <==> GithubConnect(m, now) == m
  {
  }

  /** `handleDisconnect`: the records with the id become disconnected with no config and no sync
      time; every other record is unchanged. */
  function Disconnect(xs: seq<Integration>, id: string): (r: seq<Integration>)
    ensures |r| == |xs|
    ensures forall k | 0 <= k < |xs| && xs[k].id == id ::
              r[k] == xs[k].(status := Disconnected, config := NoConfig, lastSync := None)
    ensures forall k | 0 <= k < |xs| && xs[k].id != id :: r[k] == xs[k]
  {
    seq(|xs|, k requires 0 <= k < |xs| =>
      if xs[k].id == id then xs[k].(status := Disconnected, config := NoConfig, lastSync := None) else xs[k])
  }

  /** Disconnecting twice is disconnecting once. */
  lemma DisconnectIdempotent(xs: seq<Integration>, id: string)
    ensures Disconnect(Disconnect(xs, id), id) == Disconnect(xs, id)
  {
  }

  /** A record in its pristine disconnected state. */
  predicate Pristine(x: Integration) {
    x.status == Disconnected && x.config == NoConfig && x.lastSync.None?
  }

  /** Connecting a kind and then disconnecting, by id, every record that was connected restores the
      list, provided those records were pristine and the id picks out exactly the records of that kind. */
  lemma ConnectThenDisconnect(xs: seq<Integration>, kind: Kind, form: Config, now: string, id: string)
    requires forall k | 0 <= k < |xs| :: (xs[k].kind == kind <==> xs[k].id == id)
    requires forall k | 0 <= k < |xs| && xs[k].kind == kind :: Pristine(xs[k])
    ensures Disconnect(ConnectKind(xs, kind, form, now), id) == xs
  {
    var r := Disconnect(ConnectKind(xs, kind, form, now), id);
    forall k | 0 <= k < |xs|
      ensures r[k] == xs[k]
    {
    }
  }

  /** Consistency of a record: connected exactly when it carries a config, and then the config is of
      its own kind, was filled in enough to pass the guard, and a sync time is recorded; otherwise
      there is no sync time. */
  predicate Consistent(x: Integration) {
    && (x.status == Connected <==> x.config != NoConfig)
    && (x.status == Connected ==> x.lastSync.Some?)
    && (x.status != Connected ==> x.lastSync.None?)
    && (x.config != NoConfig ==>
          (x.kind == Supabase && x.config.SupabaseConfig? && SupabaseReady(x.config.supabase))
          || (x.kind == Github && x.config.GithubConfig? && GithubReady(x.config.github)))
  }

  /** The parts of a record no handler touches. */
  function Identity(x: Integration): (string, string, Kind, string) {
    (x.id, x.name, x.kind, x.description)
  }

  predicate SameIdentities(xs: seq<Integration>, ys: seq<Integration>) {
    |xs| == |ys| && forall k | 0 <= k < |xs| :: Identity(xs[k]) == Identity(ys[k])
  }

  /** Everything the dialog can do. Form edits replace one field of a form. */
  datatype Event =
    | OpenSetup(kind: Kind)
    | CloseSetup(kind: Kind)
    | SelectTab(tab: Tab)
    | EditUrl(text: string)
    | EditAnonKey(text: string)
    | EditServiceKey(text: string)
    | EditToken(text: string)
    | EditRepository(text: string)
    | EditBranch(text: string)
    | ConnectSupabase(now: string)
    | ConnectGithub(now: string)
    | DisconnectOne(id: string)

  function Step(m: Modal, e: Event): Modal
  {
    match e
    case OpenSetup(kind) => if kind == Supabase then m.(showSupabaseSetup := true) else m.(showGithubSetup := true)
    case CloseSetup(kind) => if kind == Supabase then m.(showSupabaseSetup := false) else m.(showGithubSetup := false)
    case SelectTab(tab) => m.(activeTab := tab)
    case EditUrl(text) => m.(supabaseForm := m.supabaseForm.(url := text))
    case EditAnonKey(text) => m.(supabaseForm := m.supabaseForm.(anonKey := text))
    case EditServiceKey(text) => m.(supabaseForm := m.supabaseForm.(serviceKey := text))
    case EditToken(text) => m.(githubForm := m.githubForm.(token := text))
    case EditRepository(text) => m.(githubForm := m.githubForm.(repository := text))
    case EditBranch(text) => m.(githubForm := m.githubForm.(branch := text))
    case ConnectSupabase(now) => SupabaseConnect(m, now)
    case ConnectGithub(now) => GithubConnect(m, now)
    case DisconnectOne(id) => m.(integrations := Disconnect(m.integrations, id))
  }

  /** The invariant every reachable dialog keeps. */
  predicate Good(m: Modal) {
    forall k | 0 <= k < |m.integrations| :: Consistent(m.integrations[k])
  }

  /** Each event keeps the invariant and never changes which records exist or what they are. */
  lemma StepGood(m: Modal, e: Event)
    requires Good(m)
    ensures Good(Step(m, e))
    ensures SameIdentities(m.integrations, Step(m, e).integrations)
  {
  }

  function Run(m: Modal, es: seq<Event>): Modal
    decreases |es|
  {
    if |es| == 0 then m else Run(Step(m, es[0]), es[1..])
  }

  /** The opening dialog is good: two pristine records, both in the "available" tab. */
  lemma InitialGood()
    ensures Good(Initial)
    ensures |AvailableOnes(Initial.integrations)| == 2 && |ConnectedOnes(Initial.integrations)| == 0
  {
  }

  /** Whatever happens, the same records keep their ids, names, kinds and descriptions, every
      connected record holds a config of its own kind with the required fields, and every record
      is on exactly one tab. */
  lemma {:induction false} RunGood(m: Modal, es: seq<Event>)
    requires Good(m)
    ensures Good(Run(m, es))
    ensures SameIdentities(m.integrations, Run(m, es).integrations)
    decreases |es|
  {
    if |es| > 0 {
      StepGood(m, es[0]);
      var m1 := Step(m, es[0]);
      RunGood(m1, es[1..]);
    }
  }

  /** From the opening dialog: two records, supabase-1 then github-1, and a connected record always
      holds the credentials its guard required. */
  lemma Reachable(es: seq<Event>)
    ensures var xs := Run(Initial, es).integrations;
            |xs| == 2 && xs[0].id == "supabase-1" && xs[1].id == "github-1"
            && (xs[0].status == Connected ==> xs[0].config.SupabaseConfig? && SupabaseReady(xs[0].config.supabase))
            && (xs[1].status == Connected ==> xs[1].config.GithubConfig? && GithubReady(xs[1].config.github))
  {
    InitialGood();
    RunGood(Initial, es);
  }
}

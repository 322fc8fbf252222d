/**
 * `ScraperFactory`: the instance cache with its re-entrancy guard, and the
 * lookup of a scraper by class, id or URL.
 *
 * The factory's class-level state is an explicit value threaded through the
 * calls. A scraper constructor may itself ask the factory for the scrapers
 * it uses, so it is modelled as a function from the factory state to its
 * outcome and the state after it. Scraper discovery (importing the scraper
 * modules) and `match_url` (a regular expression per scraper) are
 * parameters.
 */
module Factory {
  import opened Results

  /**
   * What the factory reads of a scraper class: its id and the ids of the
   * scrapers it uses. `name` is the class's qualified name and stands for
   * the class object, so two classes that share an id and a uses-list are
   * still two cache keys.
   */
  datatype ScraperClass = ScraperClass(name: string, id: string, usesScrapers: seq<string>)

  /** `_scraper_instances_cache` and `_currently_initializing`. */
  datatype State<I> = State(cache: map<ScraperClass, I>, initializing: seq<ScraperClass>)

  /** What the factory raises. */
  datatype Failure<E> =
    | AlreadyInitializing(cls: ScraperClass)   // ScraperError: a circular dependency
    | NotInitializing(cls: ScraperClass)       // ValueError of `list.remove`
    | NoScraperGiven                           // ValueError: no class, id or URL
    | NoMatchingScraper                        // ValueError: nothing matched
    | ConstructorFailed(error: E)              // whatever the constructor raised

  /**
   * The scraper constructor, given the factory state it runs in and its
   * `config_data`; and Python truthiness of a scraper's config section.
   */
  datatype Env<!I, E, !V> = Env(
    construct: (State<I>, ScraperClass, Option<map<string, V>>) -> (Result<I, E>, State<I>),
    truthy: V -> bool)

  /**
   * With `extract_scraper_config`: a non-empty main config is cut down to
   * the sections of the scraper and the scrapers it uses that are truthy;
   * an absent or empty one becomes `None`.
   */
  function ExtractConfig<V>(cls: ScraperClass, configData: Option<map<string, V>>, truthy: V -> bool): (r: Option<map<string, V>>)
    ensures r.None? <==> configData.None? || |configData.value| == 0
    ensures r.Some? ==> forall id :: id in r.value <==>
      (id == cls.id || id in cls.usesScrapers) && id in configData.value && truthy(configData.value[id])
    ensures r.Some? ==> forall id :: id in r.value ==> r.value[id] == configData.value[id]
  {
    if configData.Some? && |configData.value| > 0 then
      var d := configData.value;
      Some(map id | id in d.Keys && (id == cls.id || id in cls.usesScrapers) && truthy(d[id]) :: d[id])
    else None
  }

  /** The state the constructor runs in: the class is marked as initialising. */
  function Started<I>(s: State<I>, cls: ScraperClass): State<I> {
    s.(initializing := s.initializing + [cls])
  }

  /** `list.remove`: the first occurrence goes. */
  function RemoveFirst(xs: seq<ScraperClass>, x: ScraperClass): (r: seq<ScraperClass>)
    requires x in xs
    ensures |r| == |xs| - 1
    ensures multiset(r) == multiset(xs) - multiset{x}
  {
    if xs[0] == x then
      assert xs == [x] + xs[1..];
      xs[1..]
    else
      assert xs == [xs[0]] + xs[1..];
      [xs[0]] + RemoveFirst(xs[1..], x)
  }

  /**
   * `_get_scraper_instance`: a cached instance is returned as it is; a
   * class being initialised raises; otherwise the class is marked, built,
   * cached and unmarked. A constructor that raises leaves the mark.
   */
  function GetInstance<I, E, V>(s: State<I>, cls: ScraperClass, configData: Option<map<string, V>>, extract: bool, env: Env<I, E, V>)
    : (out: (Result<I, Failure<E>>, State<I>))
    ensures cls in s.cache ==> out == (Ok(s.cache[cls]), s)
    ensures cls !in s.cache && cls in s.initializing ==> out == (Err(AlreadyInitializing(cls)), s)
    ensures out.0.Ok? ==> cls in out.1.cache && out.1.cache[cls] == out.0.value
  {
    if cls in s.cache then (Ok(s.cache[cls]), s)
    else if cls in s.initializing then (Err(AlreadyInitializing(cls)), s)
    else
      var config := if extract then ExtractConfig(cls, configData, env.truthy) else configData;
      var (built, after) := env.construct(Started(s, cls), cls, config);
      match built
      case Err(e) => (Err(ConstructorFailed(e)), after)
      case Ok(instance) =>
        if cls in after.initializing then
          (Ok(instance), State(after.cache[cls := instance], RemoveFirst(after.initializing, cls)))
        else (Err(NotInitializing(cls)), after.(cache := after.cache[cls := instance]))
  }

  /** A repeated request returns the instance the first one built, and changes nothing. */
  lemma CachedOnRepeat<I, E, V>(s: State<I>, cls: ScraperClass, configData: Option<map<string, V>>, extract: bool,
                                env: Env<I, E, V>, configData': Option<map<string, V>>, extract': bool, env': Env<I, E, V>)
    requires GetInstance(s, cls, configData, extract, env).0.Ok?
    ensures var (first, s1) := GetInstance(s, cls, configData, extract, env);
      GetInstance(s1, cls, configData', extract', env') == (first, s1)
  {
  }

  /**
   * A constructor that asks the factory for its own class, directly or
   * through the scrapers it uses, gets `ScraperError` instead of recursing.
   */
  lemma SelfRequestRaises<I, E, V>(s: State<I>, cls: ScraperClass, configData: Option<map<string, V>>, extract: bool, env: Env<I, E, V>)
    requires cls !in s.cache
    ensures GetInstance(Started(s, cls), cls, configData, extract, env) == (Err(AlreadyInitializing(cls)), Started(s, cls))
  {
    assert Started(s, cls).initializing[|s.initializing|] == cls;
  }

  /**
   * A constructor that raises without touching the factory leaves its class
   * marked as initialising, so every later request for it raises
   * `ScraperError`.
   */
  lemma FailedConstructionBlocksRetry<I, E, V>(s: State<I>, cls: ScraperClass, configData: Option<map<string, V>>, extract: bool, env: Env<I, E, V>)
    requires cls !in s.cache && cls !in s.initializing
    requires var config := if extract then ExtractConfig(cls, configData, env.truthy) else configData;
      env.construct(Started(s, cls), cls, config).0.Err? && env.construct(Started(s, cls), cls, config).1 == Started(s, cls)
    ensures var (first, s1) := GetInstance(s, cls, configData, extract, env);
      first.Err? && first.error.ConstructorFailed? && GetInstance(s1, cls, configData, extract, env).0 == Err(AlreadyInitializing(cls))
  {
    SelfRequestRaises(s, cls, configData, extract, env);
  }

  /** A constructor that builds without touching the factory leaves the guard as it found it. */
  lemma SuccessfulConstructionUnmarks<I, E, V>(s: State<I>, cls: ScraperClass, configData: Option<map<string, V>>, extract: bool, env: Env<I, E, V>)
    requires cls !in s.cache && cls !in s.initializing
    requires var config := if extract then ExtractConfig(cls, configData, env.truthy) else configData;
      env.construct(Started(s, cls), cls, config).0.Ok? && env.construct(Started(s, cls), cls, config).1 == Started(s, cls)
    ensures var (first, s1) := GetInstance(s, cls, configData, extract, env);
      first.Ok? && s1.initializing == s.initializing && s1.cache == s.cache[cls := first.value]
  {
    var s0 := Started(s, cls);
    assert s0.initializing[|s.initializing|] == cls;
    assert RemoveFirst(s0.initializing, cls) == s.initializing by {
      RemoveLast(s.initializing, cls);
    }
  }

  lemma {:induction false} RemoveLast(xs: seq<ScraperClass>, x: ScraperClass)
    requires x !in xs
    ensures RemoveFirst(xs + [x], x) == xs
    decreases |xs|
  {
    if |xs| > 0 {
      assert (xs + [x])[1..] == xs[1..] + [x];
      RemoveLast(xs[1..], x);
    }
  }

  // ---------------------------------------------------------------- lookup

  /** Python truthiness of an optional string. */
  predicate Given(s: Option<string>) {
    s.Some? && |s.value| > 0
  }

  /** The first class with the given id. */
  function FindById(classes: seq<ScraperClass>, id: string): (r: Option<ScraperClass>)
    ensures r.Some? ==> (exists i :: 0 <= i < |classes| && classes[i] == r.value && r.value.id == id
                                  && forall j :: 0 <= j < i ==> classes[j].id != id)
    ensures r.None? <==> forall i :: 0 <= i < |classes| ==> classes[i].id != id
    decreases |classes|
  {
    if |classes| == 0 then None
    else if classes[0].id == id then Some(classes[0])
    else
      var r := FindById(classes[1..], id);
      assert forall i :: 0 < i < |classes| ==> classes[i] == classes[1..][i - 1];
      r
  }

  /** The first class whose URL pattern matches. */
  function FindByUrl(classes: seq<ScraperClass>, url: string, matchUrl: (ScraperClass, string) -> bool): (r: Option<ScraperClass>)
    ensures r.Some? ==> (exists i :: 0 <= i < |classes| && classes[i] == r.value && matchUrl(r.value, url)
                                  && forall j :: 0 <= j < i ==> !matchUrl(classes[j], url))
    ensures r.None? <==> forall i :: 0 <= i < |classes| ==> !matchUrl(classes[i], url)
    decreases |classes|
  {
    if |classes| == 0 then None
    else if matchUrl(classes[0], url) then Some(classes[0])
    else
      var r := FindByUrl(classes[1..], url, matchUrl);
      assert forall i :: 0 < i < |classes| ==> classes[i] == classes[1..][i - 1];
      r
  }

  /**
   * `get_scraper_instance`: a given class is built directly; otherwise an id
   * selects by id and, only without an id, a URL selects by pattern; no
   * match raises or gives `None` according to `raise_error`.
   */
  function GetScraperInstance<I, E, V>(
    s: State<I>, classes: seq<ScraperClass>, matchUrl: (ScraperClass, string) -> bool,
    scraperClass: Option<ScraperClass>, scraperId: Option<string>, url: Option<string>,
    configData: Option<map<string, V>>, extract: bool, raiseError: bool, env: Env<I, E, V>)
    : (out: (Result<Option<I>, Failure<E>>, State<I>))
    ensures scraperClass.None? && !Given(scraperId) && !Given(url) ==> out == (Err(NoScraperGiven), s)
    ensures scraperClass.None? && Given(scraperId) && FindById(classes, scraperId.value).None? ==>
      out == (if raiseError then Err(NoMatchingScraper) else Ok(None), s)
    ensures scraperClass.None? && !Given(scraperId) && Given(url) && FindByUrl(classes, url.value, matchUrl).None? ==>
      out == (if raiseError then Err(NoMatchingScraper) else Ok(None), s)
    ensures out.0 != Ok(None) || !raiseError
  {
    var chosen :=
      if scraperClass.Some? then scraperClass
      else if Given(scraperId) then FindById(classes, scraperId.value)
      else if Given(url) then FindByUrl(classes, url.value, matchUrl)
      else None;
    if scraperClass.None? && !Given(scraperId) && !Given(url) then (Err(NoScraperGiven), s)
    else if chosen.None? then (if raiseError then Err(NoMatchingScraper) else Ok(None), s)
    else
      var (r, s1) := GetInstance(s, chosen.value, configData, extract, env);
      (if r.Ok? then Ok(Some(r.value)) else Err(r.error), s1)
  }

  /** With an id given, the URL plays no part. */
  lemma IdBeforeUrl<I, E, V>(
    s: State<I>, classes: seq<ScraperClass>, matchUrl: (ScraperClass, string) -> bool,
    scraperId: Option<string>, url: Option<string>, url': Option<string>,
    configData: Option<map<string, V>>, extract: bool, raiseError: bool, env: Env<I, E, V>)
    requires Given(scraperId)
    ensures GetScraperInstance(s, classes, matchUrl, None, scraperId, url, configData, extract, raiseError, env)
         == GetScraperInstance(s, classes, matchUrl, None, scraperId, url', configData, extract, raiseError, env)
  {
  }

  /** A request by id for an already built scraper returns the cached instance of the first class with that id. */
  lemma CachedById<I, E, V>(
    s: State<I>, classes: seq<ScraperClass>, matchUrl: (ScraperClass, string) -> bool,
    id: string, configData: Option<map<string, V>>, extract: bool, raiseError: bool, env: Env<I, E, V>)
    requires |id| > 0 && FindById(classes, id).Some? && FindById(classes, id).value in s.cache
    ensures GetScraperInstance(s, classes, matchUrl, None, Some(id), None, configData, extract, raiseError, env)
         == (Ok(Some(s.cache[FindById(classes, id).value])), s)
  {
  }
}

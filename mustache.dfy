/**
 * The class `Mustache`: the entry points `render` and `renderByFile` and the
 * two static fields they update, the root map `$data` and the template cache
 * `$templates`. The file system is a map from file name to its contents
 * (None when the file exists but cannot be read).
 */
module Mustache {
  import opened Wrappers
  import opened Values
  import opened Engine
  import opened CustomParsers

  datatype RenderError =
    | OutOfFuel
    | MissingTemplate(fileName: string)
    | UnreadableTemplate(fileName: string)

  datatype Outcome = Rendered(text: string) | Failed(error: RenderError)

  /** What a file store answers: absent names do not exist. */
  type Store = map<string, Option<string>>

  /** `$pathTemplate . '.' . $fileExtension`: the path, a dot, then the extension. */
  function FileName(path: string, ext: string): (r: string)
    ensures |r| == |path| + 1 + |ext|
    ensures r[..|path|] == path && r[|path|] == '.' && r[|path| + 1..] == ext
  {
    path + "." + ext
  }

  /** The cache step of `renderByFile`: the template text, the new cache, and whether the store was read. */
  datatype Load = Loaded(text: string, cache: map<string, string>, fetched: bool) | LoadFailed(error: RenderError)

  /**
   * The cache is keyed by the path alone, so a hit ignores the extension; the
   * store is read only on a miss; an entry once cached is never replaced; a
   * failed load leaves the cache as it was.
   */
  function LoadTemplate(cache: map<string, string>, store: Store, path: string, ext: string): (r: Load)
    ensures path in cache ==> r == Loaded(cache[path], cache, false)
    ensures r.Loaded? ==>
      && path in r.cache && r.cache[path] == r.text
      && r.cache.Keys == cache.Keys + {path}
      && (forall p :: p in cache ==> r.cache[p] == cache[p])
    ensures r.Loaded? && r.fetched ==>
      path !in cache && FileName(path, ext) in store && store[FileName(path, ext)] == Some(r.text)
    ensures r.LoadFailed? <==> path !in cache && (FileName(path, ext) !in store || store[FileName(path, ext)].None?)
    ensures r.LoadFailed? ==>
      r.error == if FileName(path, ext) !in store then MissingTemplate(FileName(path, ext)) else UnreadableTemplate(FileName(path, ext))
  {
    var name := FileName(path, ext);
    if path in cache then Loaded(cache[path], cache, false)
    else if name !in store then LoadFailed(MissingTemplate(name))
    else match store[name]
      case None => LoadFailed(UnreadableTemplate(name))
      case Some(text) => Loaded(text, cache[path := text], true)
  }

  /**
   * Once a path has loaded, every later load of it, with any extension and
   * whatever the store now holds, is a hit: the same text, the same cache and
   * no read; so two loads of one path read the store at most once.
   */
  lemma SecondLoadHits(cache: map<string, string>, store: Store, later: Store, path: string, ext: string, ext2: string)
    requires LoadTemplate(cache, store, path, ext).Loaded?
    ensures
      var first := LoadTemplate(cache, store, path, ext);
      var second := LoadTemplate(first.cache, later, path, ext2);
      && second == Loaded(first.text, first.cache, false)
      && (first.fetched <==> path !in cache)
  {
  }

  class Mustache {
    /** `self::$data`: the root map of the latest `render`; unset before the first. */
    var root: Option<Entries>
    /** `self::$templates`. */
    var templates: map<string, string>
    /** Every closure invocation made so far, the history closure results may depend on. */
    var calls: seq<ClosureId>
    /** The names of the files `file_get_contents` was called on so far, in order. */
    var fileReads: seq<string>

    constructor ()
      ensures root == None && templates == map[] && calls == [] && fileReads == []
    {
      root := None;
      templates := map[];
      calls := [];
      fileReads := [];
    }

    /** `render`: remember the root map, parse against it, then run the custom parsers. */
    method Render(template: string, fuel: nat, oracle: Oracle, matches: Matcher, callbacks: Callbacks,
                  data: Entries := [], parsers: seq<CustomParser> := [])
      returns (r: Outcome)
      modifies this
      ensures root == Some(data)
      ensures templates == old(templates) && fileReads == old(fileReads)
      ensures match Parse(fuel, Run(template, old(calls)), data, data, oracle)
        case None => r == Failed(OutOfFuel) && calls == old(calls)
        case Some(run) => r == Rendered(Apply(run.text, parsers, matches, callbacks)) && calls == run.calls
    {
      root := Some(data);
      var parsed := Parse(fuel, Run(template, calls), data, root.value, oracle);
      match parsed
      case None =>
        r := Failed(OutOfFuel);
      case Some(run) =>
        calls := run.calls;
        var text, _ := HandleCustomParsers(run.text, parsers, matches, callbacks);
        r := Rendered(text);
    }

    /** `renderByFile`: fill the cache on a miss, failing on a missing or unreadable file, then `render` the cached text. */
    method RenderByFile(path: string, store: Store, fuel: nat, oracle: Oracle, matches: Matcher, callbacks: Callbacks,
                        data: Entries := [], parsers: seq<CustomParser> := [], ext: string := "mustache")
      returns (r: Outcome)
      modifies this
      ensures match LoadTemplate(old(templates), store, path, ext)
        case LoadFailed(e) =>
          && r == Failed(e)
          && root == old(root) && templates == old(templates) && calls == old(calls)
          && fileReads == old(fileReads) + (if e.UnreadableTemplate? then [FileName(path, ext)] else [])
        case Loaded(text, cache, fetched) =>
          && templates == cache
          && fileReads == old(fileReads) + (if fetched then [FileName(path, ext)] else [])
          && root == Some(data)
          && match Parse(fuel, Run(text, old(calls)), data, data, oracle)
            case None => r == Failed(OutOfFuel) && calls == old(calls)
            case Some(run) => r == Rendered(Apply(run.text, parsers, matches, callbacks)) && calls == run.calls
    {
      var name := path + "." + ext;
      if path !in templates {
        if name !in store {
          return Failed(MissingTemplate(name));
        }
        fileReads := fileReads + [name];
        var contents := store[name];
        if contents.None? {
          return Failed(UnreadableTemplate(name));
        }
        templates := templates[path := contents.value];
      }
      r := Render(templates[path], fuel, oracle, matches, callbacks, data, parsers);
    }
  }
}

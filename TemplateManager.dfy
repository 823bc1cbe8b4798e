/** The template store: named watermark settings plus the name of the template
    used last, persisted to a JSON file after every change. The file is
    modelled as the value last written to it; JSON encoding and the file
    system are not modelled. */
module TemplateManager {
  import opened Base

  /** A JSON value, as the settings of a template hold them. */
  datatype Json =
    | JNull
    | JBool(b: bool)
    | JNum(n: real)
    | JStr(s: string)
    | JArr(items: seq<Json>)

  /** One template: a dictionary of setting names to values. */
  type Settings = map<string, Json>

  /** The name of the template created when no template file exists. */
  const DefaultName: string := "默认模板"

  /** The settings of the default template. */
  const DefaultSettings: Settings := map[
    "text" := JStr("版权所有"),
    "font_path" := JStr("resources/华文中宋.ttf"),
    "font_size" := JNum(40.0),
    "color" := JArr([JNum(255.0), JNum(255.0), JNum(255.0), JNum(200.0)]),
    "position" := JStr("bottom_right"),
    "opacity" := JNum(0.8),
    "bold" := JBool(false),
    "italic" := JBool(false),
    "rotate" := JNum(0.0),
    "show_blur" := JNum(2.0),
    "stroke_fill" := JArr([JNum(0.0), JNum(0.0), JNum(0.0), JNum(255.0)])
  ]

  /** The in-memory state: the templates and the last-used name (JSON null is `None`). */
  datatype Store = Store(templates: map<string, Settings>, lastUsed: Option<string>)

  /** The content of the template file: its "templates" and "last_used" keys,
      each of which may be missing. */
  datatype FileData = FileData(templates: Option<map<string, Settings>>, lastUsed: Option<string>)

  /** The state created when there is no template file. */
  function DefaultStore(): Store {
    Store(map[DefaultName := DefaultSettings], Some(DefaultName))
  }

  /** The state read from an existing file: missing keys give no templates and no last-used name. */
  function StoreOf(data: FileData): Store {
    Store(data.templates.GetOr(map[]), data.lastUsed)
  }

  /** What a save writes: both keys, always present. */
  function FileOf(st: Store): FileData {
    FileData(Some(st.templates), st.lastUsed)
  }

  /** The state after `save_template(name, settings)`. */
  function Saved(st: Store, name: string, settings: Settings): Store {
    Store(st.templates[name := settings], Some(name))
  }

  /** What `load_template(name)` returns. */
  function LoadResult(st: Store, name: string): Option<Settings> {
    if name in st.templates then Some(st.templates[name]) else None
  }

  /** The state after `load_template(name)`. */
  function Loaded(st: Store, name: string): Store {
    if name in st.templates then Store(st.templates, Some(name)) else st
  }

  /** The state after `delete_template(name)`. */
  function Deleted(st: Store, name: string): Store {
    if name in st.templates then
      Store(st.templates - {name}, if st.lastUsed == Some(name) then Some(DefaultName) else st.lastUsed)
    else st
  }

  /** The last-used name, when there is one, names a stored template. */
  predicate LastUsedValid(st: Store) {
    st.lastUsed.Some? ==> st.lastUsed.value in st.templates
  }

  /** Without a template file the store holds exactly the default template,
      which is also the last used one. */
  lemma DefaultStoreShape()
    ensures DefaultStore().templates.Keys == {DefaultName}
    ensures |DefaultStore().templates| == 1
    ensures DefaultStore().lastUsed == Some(DefaultName) && LastUsedValid(DefaultStore())
    ensures DefaultStore().templates[DefaultName]["font_size"] == JNum(40.0)
    ensures DefaultStore().templates[DefaultName]["position"] == JStr("bottom_right")
  {
    assert DefaultStore().templates.Keys == {DefaultName};
  }

  /** Reading back what was written restores the state exactly. */
  lemma PersistRoundTrip(st: Store)
    ensures StoreOf(FileOf(st)) == st
  {
  }

  /** Saving stores the settings under the name (replacing any earlier entry),
      makes the name the last used one and leaves every other entry as it was. */
  lemma SaveStoresUnderName(st: Store, name: string, settings: Settings)
    ensures var r := Saved(st, name, settings);
      && name in r.templates && r.templates[name] == settings
      && r.lastUsed == Some(name)
      && LastUsedValid(r)
      && r.templates.Keys == st.templates.Keys + {name}
      && forall m :: m in st.templates && m != name ==> r.templates[m] == st.templates[m]
  {
  }

  /** Saving twice under one name is saving the second settings once. */
  lemma SaveOverwrites(st: Store, name: string, s1: Settings, s2: Settings)
    ensures Saved(Saved(st, name, s1), name, s2) == Saved(st, name, s2)
  {
    assert st.templates[name := s1][name := s2] == st.templates[name := s2];
  }

  /** A template reads back as it was saved, and loading it changes nothing further. */
  lemma LoadAfterSave(st: Store, name: string, settings: Settings)
    ensures LoadResult(Saved(st, name, settings), name) == Some(settings)
    ensures Loaded(Saved(st, name, settings), name) == Saved(st, name, settings)
  {
  }

  /** Loading a stored template returns it, makes it the last used one and
      leaves the templates alone; loading a missing one returns nothing and
      changes nothing. */
  lemma LoadBehaviour(st: Store, name: string)
    ensures name in st.templates ==>
              LoadResult(st, name) == Some(st.templates[name]) &&
              Loaded(st, name) == Store(st.templates, Some(name))
    ensures name !in st.templates ==> LoadResult(st, name).None? && Loaded(st, name) == st
    ensures LastUsedValid(st) ==> LastUsedValid(Loaded(st, name))
  {
  }

  /** Deleting removes exactly the named template; the last-used name falls
      back to the default template's name when it was the deleted one and is
      kept otherwise. A missing name changes nothing. */
  lemma DeleteRemovesOnlyName(st: Store, name: string)
    ensures var r := Deleted(st, name);
      && name !in r.templates
      && r.templates.Keys == st.templates.Keys - {name}
      && (forall m :: m in r.templates ==> r.templates[m] == st.templates[m])
      && (name in st.templates && st.lastUsed == Some(name) ==> r.lastUsed == Some(DefaultName))
      && (st.lastUsed != Some(name) ==> r.lastUsed == st.lastUsed)
      && (name !in st.templates ==> r == st)
  {
  }

  /** After a delete, loading that name finds nothing. */
  lemma LoadAfterDelete(st: Store, name: string)
    ensures LoadResult(Deleted(st, name), name).None?
  {
  }

  /** Deleting keeps the last-used name valid unless the default template
      itself is gone while the deleted template was the last used one. */
  lemma DeleteKeepsLastUsedValid(st: Store, name: string)
    requires LastUsedValid(st)
    requires st.lastUsed == Some(name) ==> name != DefaultName && DefaultName in st.templates
    ensures LastUsedValid(Deleted(st, name))
  {
  }

  /** The store does not protect the default template: deleting it from the
      initial state leaves the last-used name pointing at no template. */
  lemma DeleteDefaultLeavesDanglingName()
    ensures var r := Deleted(DefaultStore(), DefaultName);
      r.templates == map[] && r.lastUsed == Some(DefaultName) && !LastUsedValid(r)
  {
    assert DefaultName in DefaultStore().templates;
    assert DefaultStore().templates - {DefaultName} == map[];
  }

  class TemplateManager {
    var templates: map<string, Settings>
    var lastUsed: Option<string>
    /** The template file; `None` while it does not exist. */
    var file: Option<FileData>

    function State(): Store
      reads this
    {
      Store(templates, lastUsed)
    }

    /** The file holds exactly the in-memory state. */
    predicate Persisted()
      reads this
    {
      file == Some(FileOf(State()))
    }

    /** `__init__`: starts empty, then loads from the template file `initial`
        (absent when `None`). */
    constructor(initial: Option<FileData>)
      ensures initial.None? ==> State() == DefaultStore() && Persisted()
      ensures initial.Some? ==> State() == StoreOf(initial.value) && file == initial
    {
      templates := map[];
      lastUsed := None;
      file := initial;
      new;
      LoadTemplates();
    }

    /** `load_templates`: reads the file when it exists; otherwise installs the
        default template and writes the file. */
    method LoadTemplates()
      modifies this
      ensures old(file).None? ==> State() == DefaultStore() && Persisted()
      ensures old(file).Some? ==> State() == StoreOf(old(file).value) && file == old(file)
    {
      if file.Some? {
        templates := file.value.templates.GetOr(map[]);
        lastUsed := file.value.lastUsed;
      } else {
        templates := map[DefaultName := DefaultSettings];
        lastUsed := Some(DefaultName);
        SaveTemplates();
      }
    }

    /** `save_templates`: writes the state to the file. */
    method SaveTemplates()
      modifies this
      ensures State() == old(State()) && Persisted()
    {
      file := Some(FileData(Some(templates), lastUsed));
    }

    /** `save_template`: stores `settings` under `name`, marks it last used and persists. */
    method SaveTemplate(name: string, settings: Settings)
      modifies this
      ensures State() == Saved(old(State()), name, settings) && Persisted()
    {
      templates := templates[name := settings];
      lastUsed := Some(name);
      SaveTemplates();
    }

    /** `load_template`: returns the named template, marking it last used and
        persisting; a missing name returns nothing and writes nothing. */
    method LoadTemplate(name: string) returns (r: Option<Settings>)
      modifies this
      ensures r == LoadResult(old(State()), name) && State() == Loaded(old(State()), name)
      ensures name in old(templates) ==> Persisted()
      ensures name !in old(templates) ==> file == old(file)
    {
      if name in templates {
        lastUsed := Some(name);
        SaveTemplates();
        return Some(templates[name]);
      }
      return None;
    }

    /** `delete_template`: removes the named template, falls back to the
        default name when it was the last used one, and persists; a missing
        name changes nothing and writes nothing. */
    method DeleteTemplate(name: string)
      modifies this
      ensures State() == Deleted(old(State()), name)
      ensures name in old(templates) ==> Persisted()
      ensures name !in old(templates) ==> file == old(file)
    {
      if name in templates {
        templates := templates - {name};
        if lastUsed == Some(name) {
          lastUsed := Some(DefaultName);
        }
        SaveTemplates();
      }
    }
  }
}

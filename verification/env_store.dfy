/** The per-project environment choice (src/utils/envStore.ts): an
    in-memory map from project directory to environment name, loaded from
    and saved to the workspace state under one key once the store has been
    initialised. The workspace state is modelled as a value in the store. */
module EnvStore {
  import opened Wrappers

  const StoreKey: string := "intlayer.projectEnvironments"

  /** What the workspace state holds under the key: nothing, a record, or
      some other value, which initialisation ignores. */
  datatype Saved = Missing | Record(entries: map<string, string>) | NotAnObject

  /** The module state: the in-memory map and, once initialised, what the
      workspace state holds under the key (`None` while there is no
      workspace state to write to). */
  datatype Store = Store(memory: map<string, string>, workspace: Option<Saved>)

  const Empty: Store := Store(map[], None)

  /** `initializeEnvironmentStore`: remembers the workspace state and copies
      a saved record into memory; anything else leaves memory as it was. */
  function Initialize(s: Store, saved: Saved): (r: Store)
    ensures r.workspace == Some(saved)
    ensures saved.Record? ==> r.memory == saved.entries
    ensures !saved.Record? ==> r.memory == s.memory
  {
    match saved
    case Record(entries) => Store(entries, Some(saved))
    case _ => Store(s.memory, Some(saved))
  }

  /** `getSelectedEnvironment`. */
  function Get(s: Store, projectDir: string): (r: Option<string>)
    ensures r.Some? <==> projectDir in s.memory
    ensures r.Some? ==> r.value == s.memory[projectDir]
  {
    if projectDir in s.memory then Some(s.memory[projectDir]) else None
  }

  /** `setSelectedEnvironment`: records the choice and, once initialised,
      saves a snapshot of the whole map. */
  function Set(s: Store, projectDir: string, env: string): (r: Store)
    ensures projectDir in r.memory && r.memory[projectDir] == env
    ensures forall p :: p != projectDir ==> (p in r.memory <==> p in s.memory) && (p in s.memory ==> r.memory[p] == s.memory[p])
    ensures r.workspace.Some? <==> s.workspace.Some?
    ensures r.workspace.Some? ==> r.workspace.value == Record(r.memory)
  {
    var m := s.memory[projectDir := env];
    Store(m, if s.workspace.Some? then Some(Record(m)) else None)
  }

  /** `getAllSelectedEnvironments`: a copy of the map. */
  function GetAll(s: Store): (r: map<string, string>)
    ensures r.Keys == s.memory.Keys && forall p :: p in r ==> r[p] == s.memory[p]
  {
    s.memory
  }

  /** Reading back what was set gives it; other projects read as before. */
  lemma SetThenGet(s: Store, p: string, q: string, env: string)
    ensures Get(Set(s, p, env), p) == Some(env)
    ensures q != p ==> Get(Set(s, p, env), q) == Get(s, q)
  {
  }

  /** After initialisation, every set saves the whole map, so the next
      session's initialisation from the workspace state restores every
      choice. */
  lemma PersistedRestores(s: Store, saved: Saved, p: string, env: string)
    ensures var t := Set(Initialize(s, saved), p, env);
            t.workspace.Some? && Initialize(Empty, t.workspace.value).memory == t.memory
  {
  }

  /** Before initialisation nothing is saved, whatever is set. */
  lemma NothingSavedBeforeInit(p: string, env: string)
    ensures Set(Empty, p, env).workspace.None?
  {
  }
}

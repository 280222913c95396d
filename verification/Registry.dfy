/** The template registry: the bindings by structural key, the tables changed since ingest, and the
    templates sidelined for this session. */
module Registry {
  import opened Wrappers

  /** A template bound to an engine. Table names are in lower case. */
  datatype Binding = Binding(templateId: string, normalizedSql: string, queryId: string, tables: set<string>)

  datatype RegistryState = RegistryState(byNorm: map<string, Binding>, dirtyTables: set<string>, quarantined: set<string>)
  {
    /** A binding is offered only while its template is not quarantined. */
    function Match(normalizedSql: string): Option<Binding> {
      if normalizedSql in byNorm && byNorm[normalizedSql].templateId !in quarantined
      then Some(byNorm[normalizedSql]) else None
    }

    predicate IsDirty(b: Binding) {
      b.tables * dirtyTables != {}
    }

    function Registered(b: Binding): RegistryState {
      this.(byNorm := byNorm[b.normalizedSql := b])
    }

    function Unregistered(normalizedSql: string): RegistryState {
      this.(byNorm := byNorm - {normalizedSql})
    }

    function Dirtied(tables: set<string>): RegistryState {
      this.(dirtyTables := dirtyTables + tables)
    }

    /** Without the given tables among the dirty ones, or without any. */
    function Cleared(tables: Option<set<string>>): RegistryState {
      this.(dirtyTables := match tables case Some(ts) => dirtyTables - ts case None => {})
    }

    function Sidelined(templateId: string): RegistryState {
      this.(quarantined := quarantined + {templateId})
    }
  }

  class TemplateRegistry {
    var byNorm: map<string, Binding>
    var dirtyTables: set<string>
    var quarantined: set<string>

    function View(): RegistryState
      reads this
    {
      RegistryState(byNorm, dirtyTables, quarantined)
    }

    constructor ()
      ensures View() == RegistryState(map[], {}, {})
    {
      byNorm, dirtyTables, quarantined := map[], {}, {};
    }

    method Register(b: Binding)
      modifies this
      ensures View() == old(View()).Registered(b)
    {
      byNorm := byNorm[b.normalizedSql := b];
    }

    method Unregister(normalizedSql: string)
      modifies this
      ensures View() == old(View()).Unregistered(normalizedSql)
    {
      byNorm := byNorm - {normalizedSql};
    }

    method MarkTablesDirty(tables: set<string>)
      modifies this
      ensures View() == old(View()).Dirtied(tables)
    {
      dirtyTables := dirtyTables + tables;
    }

    /** Clears the given tables, or all of them. */
    method ClearDirty(tables: Option<set<string>>)
      modifies this
      ensures View() == old(View()).Cleared(tables)
    {
      match tables
      case Some(ts) => dirtyTables := dirtyTables - ts;
      case None => dirtyTables := {};
    }

    method Quarantine(templateId: string)
      modifies this
      ensures View() == old(View()).Sidelined(templateId)
    {
      quarantined := quarantined + {templateId};
    }
  }
}

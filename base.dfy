/** `BaseModel` of the backend: `to_dict`, one entry per mapped column, and `update`,
    which copies the entries of a dict onto the attributes the instance has. */
module Base {
  import opened Prelude
  import opened Values

  /** `{c.key: getattr(self, c.key) for c in columns}`. */
  function ColumnDict(columns: seq<string>, attrs: map<string, Value>): (r: Entries)
    requires forall j :: 0 <= j < |columns| ==> columns[j] in attrs
    ensures |r| == |columns|
    ensures forall j :: 0 <= j < |r| ==> r[j] == (columns[j], attrs[columns[j]])
  {
    seq(|columns|, j requires 0 <= j < |columns| => (columns[j], attrs[columns[j]]))
  }

  lemma ColumnDictKeys(columns: seq<string>, attrs: map<string, Value>)
    requires forall j :: 0 <= j < |columns| ==> columns[j] in attrs
    ensures Keys(ColumnDict(columns, attrs)) == columns
  {
  }

  /** With the column names distinct, the dict has exactly the columns as keys and reads
      each one's current value. */
  lemma ColumnDictSpec(columns: seq<string>, attrs: map<string, Value>)
    requires forall j :: 0 <= j < |columns| ==> columns[j] in attrs
    requires forall a, b :: 0 <= a < b < |columns| ==> columns[a] != columns[b]
    ensures Keys(ColumnDict(columns, attrs)) == columns
    ensures DistinctKeys(ColumnDict(columns, attrs))
    ensures forall c :: c in columns ==> Get(ColumnDict(columns, attrs), c) == Some(attrs[c])
    ensures forall c :: c !in columns ==> Get(ColumnDict(columns, attrs), c) == None
  {
    var d := ColumnDict(columns, attrs);
    assert Keys(d) == columns;
    forall c | c in columns ensures Get(d, c) == Some(attrs[c]) {
      var j :| 0 <= j < |columns| && columns[j] == c;
      GetEntry(d, j);
    }
  }

  /** The attributes and the outcome after `update` has gone through the entries of
      `data`: an entry whose key is a read-only property raises AttributeError and stops
      the loop, an entry naming an attribute sets it, any other entry is skipped. */
  function Updated(attrs: map<string, Value>, properties: set<string>, data: Entries): (r: (map<string, Value>, Result<()>))
    ensures r.0.Keys == attrs.Keys
    decreases |data|
  {
    if data == [] then (attrs, Ok(()))
    else
      var prev := Updated(attrs, properties, data[..|data| - 1]);
      var (k, v) := data[|data| - 1];
      if prev.1.Err? then prev
      else if k in properties then (prev.0, Err(AttributeError(k)))
      else if k in prev.0 then (prev.0[k := v], Ok(()))
      else prev
  }

  /** No entry of `data` names a read-only property. */
  predicate NoProperty(properties: set<string>, data: Entries)
  {
    forall j :: 0 <= j < |data| ==> data[j].0 !in properties
  }

  /** `update` succeeds exactly when no key is a read-only property; then each attribute
      holds the value of the last entry naming it, or its old value when none does, and
      no attribute is added. */
  lemma {:induction false} UpdatedSpec(attrs: map<string, Value>, properties: set<string>, data: Entries)
    ensures Updated(attrs, properties, data).1.Ok? <==> NoProperty(properties, data)
    ensures NoProperty(properties, data) ==> forall k :: k in attrs ==>
      Updated(attrs, properties, data).0[k] == (match LastMapped(data, x => x, k) case Some(v) => v case None => attrs[k])
    decreases |data|
  {
    if data != [] {
      var init := data[..|data| - 1];
      UpdatedSpec(attrs, properties, init);
      if !NoProperty(properties, init) {
        var j :| 0 <= j < |init| && init[j].0 in properties;
        assert data[j] == init[j];
      }
      if NoProperty(properties, data) {
        forall j | 0 <= j < |init| ensures init[j].0 !in properties {
          assert init[j] == data[j];
        }
      }
    }
  }

  /** Once an entry has raised, the later entries change nothing. */
  lemma {:induction false} UpdatedStops(attrs: map<string, Value>, properties: set<string>, data: Entries, i: nat)
    requires i <= |data| && Updated(attrs, properties, data[..i]).1.Err?
    ensures Updated(attrs, properties, data) == Updated(attrs, properties, data[..i])
    decreases |data| - i
  {
    if i < |data| {
      assert data[..i + 1][..i] == data[..i];
      UpdatedStops(attrs, properties, data, i + 1);
    } else {
      assert data[..i] == data;
    }
  }

  /** When `update` raises, it is at the first entry naming a property, and the entries
      before it have already been applied. */
  lemma UpdatedAtError(attrs: map<string, Value>, properties: set<string>, data: Entries, j: nat)
    requires j < |data| && data[j].0 in properties && NoProperty(properties, data[..j])
    ensures Updated(attrs, properties, data).1 == Err(AttributeError(data[j].0))
    ensures Updated(attrs, properties, data).0 == Updated(attrs, properties, data[..j]).0
  {
    UpdatedSpec(attrs, properties, data[..j]);
    assert data[..j + 1][..j] == data[..j];
    UpdatedStops(attrs, properties, data, j + 1);
  }

  /** An ORM model instance: its settable attributes (the mapped columns among them),
      the names of its read-only computed properties, and its mapped columns in
      declaration order. */
  class BaseModel {
    var attrs: map<string, Value>
    const properties: set<string>
    const columns: seq<string>

    predicate Valid()
      reads this
    {
      (forall j :: 0 <= j < |columns| ==> columns[j] in attrs) && attrs.Keys !! properties
    }

    constructor (columns: seq<string>, attrs: map<string, Value>, properties: set<string>)
      requires forall j :: 0 <= j < |columns| ==> columns[j] in attrs
      requires attrs.Keys !! properties
      ensures Valid()
      ensures this.columns == columns && this.attrs == attrs && this.properties == properties
    {
      this.columns := columns;
      this.attrs := attrs;
      this.properties := properties;
    }

    /** `to_dict()`. */
    function ToDict(): (r: Entries)
      reads this
      requires Valid()
      ensures Keys(r) == columns
      ensures forall j :: 0 <= j < |r| ==> r[j].1 == attrs[columns[j]]
    {
      ColumnDict(columns, attrs)
    }

    /** `update(data)`: `setattr(self, key, value)` for each entry whose key `hasattr`
        finds; setting a read-only property raises AttributeError. */
    method Update(data: Entries) returns (status: Result<()>)
      requires Valid()
      modifies this
      ensures Valid()
      ensures (attrs, status) == Updated(old(attrs), properties, data)
    {
      var i := 0;
      status := Ok(());
      while i < |data|
        invariant 0 <= i <= |data|
        invariant Valid()
        invariant (attrs, status) == Updated(old(attrs), properties, data[..i])
        invariant status.Ok?
      {
        var (k, v) := data[i];
        assert data[..i + 1][..i] == data[..i];
        if k in properties {
          status := Err(AttributeError(k));
          UpdatedStops(old(attrs), properties, data, i + 1);
          return;
        }
        if k in attrs {
          attrs := attrs[k := v];
        }
        i := i + 1;
      }
      assert data[..i] == data;
    }
  }
}

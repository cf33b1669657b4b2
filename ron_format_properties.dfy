/** What the RON adapter promises, stated over the whole input space. */
module RonFormatProperties {
  import opened Wrappers
  import opened Primitives
  import opened ConfigValue
  import Ron
  import opened RonFormat

  /** The strings the keys of `entries` convert to. */
  ghost function KeySet(entries: seq<(Ron.Value, Ron.Value)>): set<string> {
    set i | 0 <= i < |entries| && Ron.IntoString(entries[i].0).Ok? :: Ron.IntoString(entries[i].0).value
  }

  /** No other entry's key converts to the same string as entry `i`'s. */
  ghost predicate SoleKey(entries: seq<(Ron.Value, Ron.Value)>, i: int)
    requires 0 <= i < |entries|
  {
    forall j :: 0 <= j < |entries| && j != i ==> Ron.IntoString(entries[j].0) != Ron.IntoString(entries[i].0)
  }

  /** `Unit` and `None` both become `Nil`. */
  lemma UnitAndNoneAreNil(uri: Option<string>)
    ensures FromRonValue(uri, Ron.Unit) == Ok(Value(uri, Nil))
    ensures FromRonValue(uri, Ron.Option(None)) == Ok(Value(uri, Nil))
  {
  }

  /** Scalars map one to one; a character becomes the one-character string. */
  lemma ScalarsMapOneToOne(uri: Option<string>, b: bool, i: i64, f: F64, c: char, s: string)
    ensures FromRonValue(uri, Ron.Bool(b)) == Ok(Value(uri, Boolean(b)))
    ensures FromRonValue(uri, Ron.Number(Ron.Integer(i))) == Ok(Value(uri, ValueKind.Integer(i)))
    ensures FromRonValue(uri, Ron.Number(Ron.Float(f))) == Ok(Value(uri, ValueKind.Float(f)))
    ensures FromRonValue(uri, Ron.Char(c)) == Ok(Value(uri, ValueKind.String([c])))
    ensures FromRonValue(uri, Ron.String(s)) == Ok(Value(uri, ValueKind.String(s)))
  {
  }

  /** An optional wrapper is transparent: `Some(v)` converts exactly as `v`,
      failure included. */
  lemma OptionIsTransparent(uri: Option<string>, v: Ron.Value)
    ensures FromRonValue(uri, Ron.Option(Some(v))) == FromRonValue(uri, v)
  {
  }

  /** Any number of nested `Some` wrappers collapse to what they wrap. */
  lemma {:induction false} NestedOptionsCollapse(uri: Option<string>, v: Ron.Value)
    ensures FromRonValue(uri, v) == FromRonValue(uri, Ron.StripSome(v))
  {
    match v
    case Option(Some(x)) =>
      NestedOptionsCollapse(uri, x);
    case _ =>
  }

  /** A sequence becomes an array of the same length whose element `i` is the
      conversion of input element `i`; one failing element fails the whole. */
  lemma SeqBecomesArray(uri: Option<string>, items: seq<Ron.Value>)
    ensures FromRonValue(uri, Ron.Seq(items)).Ok? <==>
              forall i :: 0 <= i < |items| ==> FromRonValue(uri, items[i]).Ok?
    ensures FromRonValue(uri, Ron.Seq(items)).Ok? ==>
              var v := FromRonValue(uri, Ron.Seq(items)).value;
              && v.kind.Array?
              && |v.kind.items| == |items|
              && forall i :: 0 <= i < |items| ==> FromRonValue(uri, items[i]) == Ok(v.kind.items[i])
  {
  }

  /** The fold over the entries of a RON map inserts the last entry into the
      table built from the others. */
  lemma FromMapLast(uri: Option<string>, entries: seq<(Ron.Value, Ron.Value)>)
    requires entries != [] && FromMap(uri, entries).Ok?
    ensures var n := |entries| - 1;
            && FromMap(uri, entries[..n]).Ok?
            && Ron.IntoString(entries[n].0).Ok?
            && FromRonValue(uri, entries[n].1).Ok?
            && FromMap(uri, entries).value ==
                 FromMap(uri, entries[..n]).value[Ron.IntoString(entries[n].0).value := FromRonValue(uri, entries[n].1).value]
  {
  }

  /** The keys of a RON map with one more entry. */
  lemma KeySetSnoc(entries: seq<(Ron.Value, Ron.Value)>)
    requires entries != []
    ensures var n := |entries| - 1;
            var last := Ron.IntoString(entries[n].0);
            KeySet(entries) == KeySet(entries[..n]) + (if last.Ok? then {last.value} else {})
  {
  }

  /** The table built from a RON map has exactly the converted keys. */
  lemma {:induction false} FromMapKeys(uri: Option<string>, entries: seq<(Ron.Value, Ron.Value)>)
    requires FromMap(uri, entries).Ok?
    ensures FromMap(uri, entries).value.Keys == KeySet(entries)
  {
    if entries != [] {
      FromMapLast(uri, entries);
      FromMapKeys(uri, entries[..|entries| - 1]);
      KeySetSnoc(entries);
    }
  }

  /** Each key of the table holds the conversion of an entry with that key. */
  lemma {:induction false} FromMapValues(uri: Option<string>, entries: seq<(Ron.Value, Ron.Value)>)
    requires FromMap(uri, entries).Ok?
    ensures var table := FromMap(uri, entries).value;
            forall k :: k in table ==>
              exists i :: 0 <= i < |entries| && Ron.IntoString(entries[i].0) == Ok(k)
                          && FromRonValue(uri, entries[i].1) == Ok(table[k])
  {
    if entries != [] {
      var n := |entries| - 1;
      var prefix := entries[..n];
      FromMapLast(uri, entries);
      FromMapValues(uri, prefix);
      var table := FromMap(uri, entries).value;
      var key := Ron.IntoString(entries[n].0).value;
      forall k | k in table
        ensures exists i :: 0 <= i < |entries| && Ron.IntoString(entries[i].0) == Ok(k)
                            && FromRonValue(uri, entries[i].1) == Ok(table[k])
      {
        if k == key {
          assert Ron.IntoString(entries[n].0) == Ok(k);
        } else {
          var i :| 0 <= i < n && Ron.IntoString(prefix[i].0) == Ok(k)
                   && FromRonValue(uri, prefix[i].1) == Ok(FromMap(uri, prefix).value[k]);
          assert entries[i] == prefix[i];
        }
      }
    }
  }

  /** A key that only one entry produces holds that entry's converted value. */
  lemma {:induction false} FromMapSoleKey(uri: Option<string>, entries: seq<(Ron.Value, Ron.Value)>, i: int)
    requires FromMap(uri, entries).Ok?
    requires 0 <= i < |entries| && SoleKey(entries, i)
    ensures Ron.IntoString(entries[i].0).Ok?
    ensures var table := FromMap(uri, entries).value;
            && Ron.IntoString(entries[i].0).value in table
            && Ok(table[Ron.IntoString(entries[i].0).value]) == FromRonValue(uri, entries[i].1)
  {
    var n := |entries| - 1;
    var prefix := entries[..n];
    FromMapLast(uri, entries);
    if i < n {
      assert prefix[i] == entries[i];
      forall j | 0 <= j < n && j != i
        ensures Ron.IntoString(prefix[j].0) != Ron.IntoString(prefix[i].0)
      {
        assert prefix[j] == entries[j];
      }
      FromMapSoleKey(uri, prefix, i);
      assert Ron.IntoString(entries[n].0) != Ron.IntoString(entries[i].0);
    }
  }

  /** A RON map becomes a table. It fails exactly when some key does not
      convert to a string or some value fails to convert; otherwise its keys
      are the converted keys and its values the converted values. */
  lemma MapBecomesTable(uri: Option<string>, entries: seq<(Ron.Value, Ron.Value)>)
    ensures FromRonValue(uri, Ron.Map(entries)).Ok? <==>
              forall i :: 0 <= i < |entries| ==>
                Ron.IntoString(entries[i].0).Ok? && FromRonValue(uri, entries[i].1).Ok?
    ensures FromRonValue(uri, Ron.Map(entries)).Ok? ==>
              var v := FromRonValue(uri, Ron.Map(entries)).value;
              && v.kind.Table?
              && v.kind.entries.Keys == KeySet(entries)
              && |v.kind.entries| <= |entries|
              && (forall k :: k in v.kind.entries ==>
                    exists i :: 0 <= i < |entries| && Ron.IntoString(entries[i].0) == Ok(k)
                                && FromRonValue(uri, entries[i].1) == Ok(v.kind.entries[k]))
              && (forall i :: 0 <= i < |entries| && SoleKey(entries, i) ==>
                    Ok(v.kind.entries[Ron.IntoString(entries[i].0).value]) == FromRonValue(uri, entries[i].1))
  {
    if FromMap(uri, entries).Ok? {
      FromMapKeys(uri, entries);
      FromMapValues(uri, entries);
      forall i | 0 <= i < |entries| && SoleKey(entries, i)
        ensures Ok(FromMap(uri, entries).value[Ron.IntoString(entries[i].0).value]) == FromRonValue(uri, entries[i].1)
      {
        FromMapSoleKey(uri, entries, i);
      }
      KeySetSize(entries);
    }
  }

  /** There are at most as many converted keys as entries. */
  lemma {:induction false} KeySetSize(entries: seq<(Ron.Value, Ron.Value)>)
    ensures |KeySet(entries)| <= |entries|
  {
    if entries != [] {
      KeySetSnoc(entries);
      KeySetSize(entries[..|entries| - 1]);
    }
  }

  /** `parse` keeps the entries of a root that is a map, under any number of
      `Some` wrappers: they are exactly what converting that map builds. */
  lemma {:induction false} ParseKeepsMapRoot(uri: Option<string>, root: Ron.Value, entries: seq<(Ron.Value, Ron.Value)>)
    requires Ron.StripSome(root) == Ron.Map(entries)
    ensures Parse(uri, Ok(root)) == FromMap(uri, entries)
  {
    NestedOptionsCollapse(uri, root);
  }

  /** Any other root (nil, scalar or sequence) whose keys convert yields an
      empty map rather than an error. */
  lemma {:induction false} ParseDropsOtherRoots(uri: Option<string>, root: Ron.Value)
    requires !Ron.StripSome(root).Map?
    requires Ron.KeysConvert(root)
    ensures Parse(uri, Ok(root)) == Ok(map[])
  {
    NestedOptionsCollapse(uri, root);
  }

  /** A document the RON parser rejected is rejected by `parse`. */
  lemma ParsePropagatesSyntaxError(uri: Option<string>)
    ensures Parse(uri, Err) == Err
  {
  }
}

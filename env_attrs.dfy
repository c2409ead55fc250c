/** The `data-env-*` attributes of the script tag, turned into the `env` list the
    embed passes on: one `key=value` string per matching attribute, in attribute order. */
module EnvAttrs {
  import opened Wrappers
  import opened Text

  /** One attribute of the script tag. */
  datatype Attr = Attr(name: string, value: string)

  const EnvPrefix: string := "data-env-"

  /** The test `/^data-env-/` on the attribute's name. */
  predicate IsEnvAttr(a: Attr) {
    StartsWith(a.name, EnvPrefix)
  }

  /** The name with its first `data-env-` removed and lower-cased, `=`, and the raw value. */
  function EnvEntry(a: Attr): string {
    ToLower(ReplaceFirst(a.name, EnvPrefix, "")) + "=" + a.value
  }

  /** Filter the attributes by `IsEnvAttr`, then map them through `EnvEntry`. */
  function EnvEntries(attrs: seq<Attr>): seq<string> {
    if attrs == [] then []
    else (if IsEnvAttr(attrs[0]) then [EnvEntry(attrs[0])] else []) + EnvEntries(attrs[1..])
  }

  /** How many attributes match `/^data-env-/`. */
  function CountEnvAttrs(attrs: seq<Attr>): nat {
    if attrs == [] then 0 else (if IsEnvAttr(attrs[0]) then 1 else 0) + CountEnvAttrs(attrs[1..])
  }

  /** The entries of a concatenation are the entries of each part, in order: each
      attribute contributes on its own and the attribute order is kept. */
  lemma {:induction false} EnvEntriesAppend(xs: seq<Attr>, ys: seq<Attr>)
    ensures EnvEntries(xs + ys) == EnvEntries(xs) + EnvEntries(ys)
  {
    if xs != [] {
      assert (xs + ys)[0] == xs[0];
      assert (xs + ys)[1..] == xs[1..] + ys;
      EnvEntriesAppend(xs[1..], ys);
    } else {
      assert xs + ys == ys;
    }
  }

  /** An attribute gives exactly one entry when it matches and none otherwise. */
  lemma EnvEntriesSingle(a: Attr)
    ensures EnvEntries([a]) == if IsEnvAttr(a) then [EnvEntry(a)] else []
  {
    assert [a][1..] == [];
  }

  /** Exactly one entry per matching attribute. */
  lemma {:induction false} EnvEntriesCount(attrs: seq<Attr>)
    ensures |EnvEntries(attrs)| == CountEnvAttrs(attrs)
  {
    if attrs != [] {
      EnvEntriesCount(attrs[1..]);
    }
  }

  /** A matching attribute's entry is its name after `data-env-`, lower-cased, then `=`
      and the value unchanged; the key part has no upper-case letter. */
  lemma EnvEntryShape(a: Attr)
    requires IsEnvAttr(a)
    ensures EnvEntry(a) == ToLower(a.name[|EnvPrefix|..]) + "=" + a.value
    ensures var key := ToLower(a.name[|EnvPrefix|..]);
            |key| == |a.name| - |EnvPrefix| && forall i :: 0 <= i < |key| ==> !IsUpper(key[i])
  {
    ReplaceLeadingPattern(a.name, EnvPrefix);
  }

  /** When the name holds no `=`, the entry's first `=` separates key and value, so the
      value can be read back unchanged whatever it contains. */
  lemma EnvEntryFirstEquals(a: Attr)
    requires IsEnvAttr(a) && '=' !in a.name
    ensures var key := ToLower(a.name[|EnvPrefix|..]);
            IndexOf(EnvEntry(a), "=") == Some(|key|) && EnvEntry(a)[|key| + 1..] == a.value
  {
    EnvEntryShape(a);
    var key := ToLower(a.name[|EnvPrefix|..]);
    var e := EnvEntry(a);
    assert OccursAt(e, "=", |key|);
    forall j: nat | j < |key| ensures !OccursAt(e, "=", j) {
      assert e[j] == key[j] == LowerChar(a.name[|EnvPrefix| + j]);
      assert a.name[|EnvPrefix| + j] != '=';
    }
    match IndexOf(e, "=")
    case None =>
    case Some(i) =>
      assert !(i < |key|) && !(|key| < i);
  }
}

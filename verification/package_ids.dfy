/**
 * PackageKit package identifiers: `name;version;arch;data`, four fields
 * separated by `;`. The backend turns each incoming string into a
 * structured identifier with `pk_package_id_new_from_string` and treats a
 * NULL result as an invalid identifier.
 */
module PackageIds {
  import opened Wrappers

  datatype PackageId = PackageId(name: string, version: string, arch: string, data: string)

  /** The fields of `s` between separators (one more field than separators). */
  function Split(s: string): (r: seq<string>)
    ensures |r| >= 1
    decreases |s|
  {
    if s == [] then [[]]
    else
      var rest := Split(s[1..]);
      if s[0] == ';' then [[]] + rest
      else [[s[0]] + rest[0]] + rest[1..]
  }

  /** The fields joined with the separator. */
  function Join(fs: seq<string>): string
    requires |fs| >= 1
    decreases |fs|
  {
    if |fs| == 1 then fs[0] else fs[0] + ";" + Join(fs[1..])
  }

  predicate NoSeparator(f: string)
  {
    forall k :: 0 <= k < |f| ==> f[k] != ';'
  }

  /** A structured identifier whose fields can be written out and read back. */
  predicate WellFormed(id: PackageId)
  {
    id.name != [] && NoSeparator(id.name) && NoSeparator(id.version)
    && NoSeparator(id.arch) && NoSeparator(id.data)
  }

  /** `pk_package_id_new_from_string`: exactly four fields and a non-empty name. */
  function Parse(s: string): Option<PackageId>
  {
    var fs := Split(s);
    if |fs| == 4 && fs[0] != [] then Some(PackageId(fs[0], fs[1], fs[2], fs[3])) else None
  }

  /** The identifier written back as a string. */
  function Print(id: PackageId): string
  {
    Join([id.name, id.version, id.arch, id.data])
  }

  lemma {:induction false} JoinFront(c: char, fs: seq<string>)
    requires |fs| >= 1
    ensures Join([[c] + fs[0]] + fs[1..]) == [c] + Join(fs)
  {
    var gs := [[c] + fs[0]] + fs[1..];
    if |fs| > 1 {
      assert gs[1..] == fs[1..];
    }
  }

  /** Splitting loses nothing: joining the fields gives back the string. */
  lemma {:induction false} JoinSplit(s: string)
    ensures Join(Split(s)) == s
    decreases |s|
  {
    if s != [] {
      var rest := Split(s[1..]);
      JoinSplit(s[1..]);
      if s[0] == ';' {
        assert ([[]] + rest)[1..] == rest;
      } else {
        JoinFront(s[0], rest);
      }
      assert s == [s[0]] + s[1..];
    }
  }

  lemma {:induction false} SplitField(f: string)
    requires NoSeparator(f)
    ensures Split(f) == [f]
    decreases |f|
  {
    if f != [] {
      SplitField(f[1..]);
      assert f == [f[0]] + f[1..];
    }
  }

  lemma {:induction false} SplitFieldThen(f: string, rest: string)
    requires NoSeparator(f)
    ensures Split(f + ";" + rest) == [f] + Split(rest)
    decreases |f|
  {
    if f == [] {
      assert f + ";" + rest == [';'] + rest;
      assert (f + ";" + rest)[1..] == rest;
    } else {
      SplitFieldThen(f[1..], rest);
      var s := f + ";" + rest;
      assert s[0] == f[0] && s[1..] == f[1..] + ";" + rest;
      assert f == [f[0]] + f[1..];
    }
  }

  /** Joining fields that hold no separator and splitting again gives the fields back. */
  lemma {:induction false} SplitJoin(fs: seq<string>)
    requires |fs| >= 1
    requires forall k :: 0 <= k < |fs| ==> NoSeparator(fs[k])
    ensures Split(Join(fs)) == fs
    decreases |fs|
  {
    if |fs| == 1 {
      SplitField(fs[0]);
    } else {
      SplitJoin(fs[1..]);
      SplitFieldThen(fs[0], Join(fs[1..]));
      assert fs == [fs[0]] + fs[1..];
    }
  }

  /** Round trip from the structured identifier: printing then parsing gives it back. */
  lemma ParsePrint(id: PackageId)
    requires WellFormed(id)
    ensures Parse(Print(id)) == Some(id)
  {
    SplitJoin([id.name, id.version, id.arch, id.data]);
  }

  /** Round trip from the string: an identifier that parses is printed back unchanged. */
  lemma PrintParse(s: string)
    requires Parse(s).Some?
    ensures Print(Parse(s).value) == s
  {
    var id := Parse(s).value;
    assert Split(s) == [id.name, id.version, id.arch, id.data];
    JoinSplit(s);
  }
}

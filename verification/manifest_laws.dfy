/** Properties of `add_code` and `read_all` that relate several calls or
  hold for every other key of the manifest.
 */
module ManifestLaws {
  import opened Results
  import opened Manifest
  import Strings

  /** With no user file, or one that does not parse, `add_code` writes the
      default version and a `codes` holding just the new record. */
  lemma AddCodeToDefault(e: Error, name: string, version: string, uri: string, sourceD: string,
                         virtualEnv: Option<string>, installed: string)
    requires e == FileNotFound || e == ValueError
    ensures AddCode(Err(e), name, version, uri, sourceD, virtualEnv, installed)
      == Ok(Obj(map[
           VERSION := Str(DEFAULT_VERSION),
           CODES := Obj(map[NO_VENV := Obj(map[])][VenvKey(virtualEnv) :=
             Obj(map[Strings.Lower(name) := Record(name, version, uri, sourceD, installed)])])]))
  {
    var d := DefaultManifest();
    var k := VenvKey(virtualEnv);
    var rec := Record(name, version, uri, sourceD, installed);
    var codes := map[NO_VENV := Obj(map[])];
    assert d.fields[CODES] == Obj(codes);
    assert VenvOf(codes, k) == Obj(map[]) by {
      assert !Truthy(Obj(map[]));
    }
    assert map[][Strings.Lower(name) := rec] == map[Strings.Lower(name) := rec];
    var added := Obj(codes[k := Obj(map[Strings.Lower(name) := rec])]);
    assert d.fields[CODES := added] == map[VERSION := Str(DEFAULT_VERSION), CODES := added];
  }

  /** Any other load failure propagates unchanged. */
  lemma AddCodePropagates(e: Error, name: string, version: string, uri: string, sourceD: string,
                          virtualEnv: Option<string>, installed: string)
    requires e != FileNotFound && e != ValueError
    ensures AddCode(Err(e), name, version, uri, sourceD, virtualEnv, installed) == Err(e)
  {
  }

  /** An absent and an empty `virtual_env` are the same venv. */
  lemma NoVenvIsEmptyName(loaded: Result<Json>, name: string, version: string, uri: string, sourceD: string,
                          installed: string)
    ensures AddCode(loaded, name, version, uri, sourceD, None, installed)
      == AddCode(loaded, name, version, uri, sourceD, Some(""), installed)
    ensures VenvKey(None) == NO_VENV
  {
  }

  /** Installing changes only the one record: every other top-level key,
      every other venv entry (whatever its value) and every other code of
      the same venv keep their values, and no top-level key or venv key
      other than `key` appears or disappears. */
  lemma InstallFrame(values: Json, key: string, code: string, record: Json, venv: string, c: string)
    requires Install(values, key, code, record).Ok?
    requires venv != key || c != code
    ensures var r := Install(values, key, code, record).value;
      && r.Obj? && r.fields.Keys == values.fields.Keys
      && (forall top :: top in values.fields && top != CODES ==> r.fields[top] == values.fields[top])
      && CodeAt(r, venv, c) == CodeAt(values, venv, c)
    ensures var r := Install(values, key, code, record).value;
      var codes := values.fields[CODES].fields;
      && HasCodes(r)
      && r.fields[CODES].fields.Keys == codes.Keys + {key}
      && (forall v :: v in codes && v != key ==> r.fields[CODES].fields[v] == codes[v])
  {
    var codes := values.fields[CODES].fields;
    var v := VenvOf(codes, key);
    if venv == key && !(key in codes && Truthy(codes[key])) {
      assert v == Obj(map[]);
      assert CodeAt(values, venv, c) == None by {
        if key in codes && codes[key].Obj? {
          assert codes[key].fields == map[];
        }
      }
    }
  }

  /** `add_code` leaves everything but the one record as it found it,
      including every other venv entry. */
  lemma AddCodeFrame(loaded: Result<Json>, name: string, version: string, uri: string, sourceD: string,
                     virtualEnv: Option<string>, installed: string, venv: string, c: string)
    requires AddCode(loaded, name, version, uri, sourceD, virtualEnv, installed).Ok?
    requires venv != VenvKey(virtualEnv) || c != Strings.Lower(name)
    ensures var b := Base(loaded).value;
      var r := AddCode(loaded, name, version, uri, sourceD, virtualEnv, installed).value;
      && r.Obj? && r.fields.Keys == b.fields.Keys
      && (forall top :: top in b.fields && top != CODES ==> r.fields[top] == b.fields[top])
      && CodeAt(r, venv, c) == CodeAt(b, venv, c)
    ensures var b := Base(loaded).value;
      var r := AddCode(loaded, name, version, uri, sourceD, virtualEnv, installed).value;
      var codes := b.fields[CODES].fields;
      && HasCodes(r)
      && r.fields[CODES].fields.Keys == codes.Keys + {VenvKey(virtualEnv)}
      && (forall v :: v in codes && v != VenvKey(virtualEnv) ==> r.fields[CODES].fields[v] == codes[v])
  {
    InstallFrame(Base(loaded).value, VenvKey(virtualEnv), Strings.Lower(name),
                 Record(name, version, uri, sourceD, installed), venv, c);
  }

  /** Installing twice under the same venv and code keeps only the second
      record. */
  lemma InstallTwice(values: Json, key: string, code: string, rec1: Json, rec2: Json)
    requires Install(values, key, code, rec1).Ok?
    ensures Install(Install(values, key, code, rec1).value, key, code, rec2) == Install(values, key, code, rec2)
  {
    var codes := values.fields[CODES].fields;
    var v := VenvOf(codes, key);
    var v1 := Obj(v.fields[code := rec1]);
    var codes1 := codes[key := v1];
    var r1 := Obj(values.fields[CODES := Obj(codes1)]);
    assert Install(values, key, code, rec1).value == r1;
    assert VenvOf(codes1, key) == v1 by {
      assert code in v1.fields;
    }
    var v2 := Obj(v.fields[code := rec2]);
    assert v1.fields[code := rec2] == v.fields[code := rec2];
    assert codes1[key := v2] == codes[key := v2];
    assert r1.fields[CODES := Obj(codes[key := v2])] == values.fields[CODES := Obj(codes[key := v2])];
  }

  /** Adding a code again, under a name equal up to case, replaces the
      earlier record: the result is what adding only the second would give. */
  lemma ReAddReplaces(loaded: Result<Json>, n1: string, n2: string, version1: string, version2: string,
                      uri1: string, uri2: string, sourceD1: string, sourceD2: string,
                      virtualEnv: Option<string>, installed1: string, installed2: string)
    requires Strings.Lower(n1) == Strings.Lower(n2)
    requires AddCode(loaded, n1, version1, uri1, sourceD1, virtualEnv, installed1).Ok?
    ensures AddCode(Ok(AddCode(loaded, n1, version1, uri1, sourceD1, virtualEnv, installed1).value),
                    n2, version2, uri2, sourceD2, virtualEnv, installed2)
      == AddCode(loaded, n2, version2, uri2, sourceD2, virtualEnv, installed2)
  {
    InstallTwice(Base(loaded).value, VenvKey(virtualEnv), Strings.Lower(n1),
                 Record(n1, version1, uri1, sourceD1, installed1), Record(n2, version2, uri2, sourceD2, installed2));
  }

  // ---------------------------------------------------------------------------
  // read_all
  // ---------------------------------------------------------------------------

  /** The merged manifest takes each top-level key from the user manifest
      when it has the key and from the container manifest otherwise. */
  lemma ReadAllUserWins(user: Json, container: Json, key: string)
    requires ReadAll(Ok(user), Ok(container)).Ok?
    ensures var r := ReadAll(Ok(user), Ok(container)).value;
      && (key in user.fields ==> r.fields[key] == user.fields[key])
      && (key !in user.fields && key in container.fields ==> r.fields[key] == container.fields[key])
      && (key in r.fields <==> key in user.fields || key in container.fields)
  {
  }

  /** The merge is shallow: when both manifests have `codes`, the result's
      `codes` is the user's whole, with none of the container's codes. */
  lemma ReadAllShallow(user: Json, container: Json)
    requires ReadAll(Ok(user), Ok(container)).Ok?
    requires CODES in user.fields && CODES in container.fields
    ensures ReadAll(Ok(user), Ok(container)).value.fields[CODES] == user.fields[CODES]
  {
  }

  /** Differing versions are refused whatever else the manifests hold. */
  lemma ReadAllVersionMismatch(user: Json, container: Json)
    requires user.Obj? && container.Obj? && VERSION in user.fields && VERSION in container.fields
    requires user.fields[VERSION] != container.fields[VERSION]
    ensures ReadAll(Ok(user), Ok(container)) == Err(AssertionError)
  {
  }

  /** Merging a manifest with itself gives it back. */
  lemma ReadAllSelf(m: Json)
    requires m.Obj? && VERSION in m.fields
    ensures ReadAll(Ok(m), Ok(m)) == Ok(m)
  {
    assert m.fields + m.fields == m.fields;
  }
}

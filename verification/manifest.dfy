/** The manifest rules of `pykern/pkcli/rsmanifest.py`: `add_code` records an
  installed code in the user manifest, and `read_all` merges the user
  manifest over the container manifest.

  Loading and dumping JSON files, expanding `~` and reading the clock are
  I/O. A load becomes an input `Result<Json>` (the parsed value or the
  exception the load raised), the timestamp becomes a string parameter, and
  the value `add_code` would dump becomes its result.
 */
module Manifest {
  import opened Results
  import Strings

  /** The venv key under which codes outside any virtualenv are recorded. */
  const NO_VENV: string := ""

  /** The `version` a fresh user manifest gets. */
  const DEFAULT_VERSION: string := "20170217.180000"

  const CODES: string := "codes"
  const VERSION: string := "version"

  /** A parsed JSON value. Objects are maps, so key order (which only
      affects how the file is pretty-printed) is not modelled. */
  datatype Json =
    | Null
    | Bool(b: bool)
    | Num(n: int)
    | Str(s: string)
    | Arr(items: seq<Json>)
    | Obj(fields: map<string, Json>)

  /** Python truthiness of a parsed value: `None`, `False`, `0` and empty
      strings, lists and dicts are false. */
  predicate Truthy(j: Json)
  {
    match j
    case Null => false
    case Bool(b) => b
    case Num(n) => n != 0
    case Str(s) => s != ""
    case Arr(items) => items != []
    case Obj(fields) => fields != map[]
  }

  /** Attribute access on a loaded manifest: a missing key, or a value that
      is not an object at all, raises `AttributeError`. */
  function Attr(j: Json, key: string): (r: Result<Json>)
    ensures r.Ok? <==> j.Obj? && key in j.fields
    ensures r.Ok? ==> r.value == j.fields[key]
    ensures r.Err? ==> r.error == AttributeError
  {
    if j.Obj? && key in j.fields then Ok(j.fields[key]) else Err(AttributeError)
  }

  /** The manifest `add_code` starts from when there is no usable user file:
      the default version and one empty venv for codes outside virtualenvs. */
  function DefaultManifest(): Json
  {
    Obj(map[VERSION := Str(DEFAULT_VERSION), CODES := Obj(map[NO_VENV := Obj(map[])])])
  }

  /** What `add_code` works on: the loaded manifest, or the default one when
      the file is missing or does not parse; any other failure propagates. */
  function Base(loaded: Result<Json>): (r: Result<Json>)
    ensures loaded.Ok? ==> r == loaded
    ensures loaded.Err? && (loaded.error == FileNotFound || loaded.error == ValueError)
      ==> r == Ok(DefaultManifest())
    ensures loaded.Err? && loaded.error != FileNotFound && loaded.error != ValueError
      ==> r == loaded
  {
    match loaded
    case Ok(j) => Ok(j)
    case Err(e) => if e == FileNotFound || e == ValueError then Ok(DefaultManifest()) else Err(e)
  }

  /** `virtual_env`, with `None` and the empty name both meaning no venv. */
  function VenvKey(virtualEnv: Option<string>): (r: string)
    ensures virtualEnv.None? ==> r == NO_VENV
    ensures virtualEnv.Some? && virtualEnv.value != "" ==> r == virtualEnv.value
    ensures virtualEnv.Some? && virtualEnv.value == "" ==> r == NO_VENV
  {
    match virtualEnv
    case None => NO_VENV
    case Some(e) => if e == "" then NO_VENV else e
  }

  /** The record stored for one code. */
  function Record(name: string, version: string, uri: string, sourceD: string, installed: string): Json
  {
    Obj(map[
      "installed" := Str(installed),
      "name" := Str(name),
      "source_d" := Str(sourceD),
      "uri" := Str(uri),
      "version" := Str(version)])
  }

  /** The venv object `add_code` starts from: the existing entry when it is
      truthy, a fresh empty object when it is absent or falsy. */
  function VenvOf(codes: map<string, Json>, key: string): Json
  {
    if key in codes && Truthy(codes[key]) then codes[key] else Obj(map[])
  }

  /** The manifest is an object whose `codes` is an object. */
  predicate HasCodes(j: Json)
  {
    j.Obj? && CODES in j.fields && j.fields[CODES].Obj?
  }

  /** The code recorded under `venv` and `key`, if the manifest has one. */
  function CodeAt(j: Json, venv: string, key: string): Option<Json>
  {
    if HasCodes(j) && venv in j.fields[CODES].fields
       && j.fields[CODES].fields[venv].Obj? && key in j.fields[CODES].fields[venv].fields
    then Some(j.fields[CODES].fields[venv].fields[key])
    else None
  }

  /** The update `add_code` makes to a loaded manifest `values`: the
      manifest must be an object with a `codes` object (otherwise
      `AttributeError`), and the venv entry under `key`, when truthy, must be
      an object (assigning into anything else raises `TypeError`). The
      record goes under `code` inside the venv, and the venv goes back under
      `key` in `codes`. */
  function Install(values: Json, key: string, code: string, record: Json): (r: Result<Json>)
    ensures !HasCodes(values) ==> r == Err(AttributeError)
    ensures r.Ok? <==> HasCodes(values) && VenvOf(values.fields[CODES].fields, key).Obj?
    ensures r.Err? && HasCodes(values) ==> r == Err(TypeError)
    ensures r.Ok? ==> CodeAt(r.value, key, code) == Some(record)
  {
    var codes :- Attr(values, CODES);
    if !codes.Obj? then Err(AttributeError)
    else
      var venv := VenvOf(codes.fields, key);
      if !venv.Obj? then Err(TypeError)
      else Ok(Obj(values.fields[CODES := Obj(codes.fields[key := Obj(venv.fields[code := record])])]))
  }

  /** The manifest `add_code` dumps, or the exception it raises: the user
      manifest (or the default one) with the record for `name` installed
      under its venv and its lower-cased name. */
  function AddCode(loaded: Result<Json>, name: string, version: string, uri: string, sourceD: string,
                   virtualEnv: Option<string>, installed: string): (r: Result<Json>)
    ensures Base(loaded).Err? ==> r == Base(loaded)
    ensures Base(loaded).Ok? && !HasCodes(Base(loaded).value) ==> r == Err(AttributeError)
    ensures r.Err? && Base(loaded).Ok? && HasCodes(Base(loaded).value) ==> r == Err(TypeError)
    ensures r.Ok? <==>
      && Base(loaded).Ok? && HasCodes(Base(loaded).value)
      && VenvOf(Base(loaded).value.fields[CODES].fields, VenvKey(virtualEnv)).Obj?
    ensures r.Ok? ==>
      CodeAt(r.value, VenvKey(virtualEnv), Strings.Lower(name)) == Some(Record(name, version, uri, sourceD, installed))
  {
    var values :- Base(loaded);
    Install(values, VenvKey(virtualEnv), Strings.Lower(name), Record(name, version, uri, sourceD, installed))
  }

  /** `read_all`: both manifests must load and carry equal `version`s
      (otherwise the load's exception, `AttributeError` when either lacks
      `version`, or `AssertionError`), and the result is the container's
      top-level keys updated with the user's. */
  function ReadAll(user: Result<Json>, container: Result<Json>): (r: Result<Json>)
    ensures r.Ok? <==>
      && user.Ok? && container.Ok?
      && user.value.Obj? && VERSION in user.value.fields
      && container.value.Obj? && VERSION in container.value.fields
      && user.value.fields[VERSION] == container.value.fields[VERSION]
    ensures user.Err? ==> r == Err(user.error)
    ensures user.Ok? && container.Err? ==> r == Err(container.error)
    ensures user.Ok? && container.Ok? && (!user.value.Obj? || VERSION !in user.value.fields)
      ==> r == Err(AttributeError)
    ensures user.Ok? && container.Ok? && user.value.Obj? && VERSION in user.value.fields
      && (!container.value.Obj? || VERSION !in container.value.fields)
      ==> r == Err(AttributeError)
    ensures r.Ok? ==>
      && r.value.Obj?
      && r.value.fields.Keys == user.value.fields.Keys + container.value.fields.Keys
  {
    var u :- user;
    var c :- container;
    var uv :- Attr(u, VERSION);
    var cv :- Attr(c, VERSION);
    if uv != cv then Err(AssertionError)
    else Ok(Obj(c.fields + u.fields))
  }
}

/**
 * The mesh and the line-by-line logic of the OBJ loader: `v` and `vn`
 * records, face tokens `a`, `a/b`, `a//c`, `a/b/c`, deduplication of
 * (position, normal) pairs into shared vertices, and fan triangulation.
 * Lines are given as a sequence of strings; the float parser and
 * `normalize` are taken from FloatOps.
 */
module Model {
  import opened Wrappers
  import opened Geometry
  import opened Text

  datatype Vertex = Vertex(pos: Vec3, nrm: Vec3)

  /** Three indices into the mesh's vertex list. */
  datatype Triangle = Triangle(i0: nat, i1: nat, i2: nat)

  predicate InRange(t: Triangle, n: nat)
  {
    t.i0 < n && t.i1 < n && t.i2 < n
  }

  datatype Mesh = Mesh(vertices: seq<Vertex>, indices: seq<Triangle>)
  {
    /** `Mesh::is_empty`. */
    predicate IsEmpty()
    {
      |vertices| == 0 || |indices| == 0
    }

    /** Every triangle index names a vertex: what the draw pipeline relies on. */
    predicate WellFormed()
    {
      forall t :: t in indices ==> InRange(t, |vertices|)
    }
  }

  /** Helper: unfolds WellFormed for the triangle at position i. */
  lemma TriangleNamesVertices(m: Mesh, i: nat)
    requires m.WellFormed() && i < |m.indices|
    ensures m.indices[i].i0 < |m.vertices| && m.indices[i].i1 < |m.vertices| && m.indices[i].i2 < |m.vertices|
  {
    assert m.indices[i] in m.indices;
  }

  datatype ObjError =
    | FaceTooShort        // a face line with fewer than three vertex tokens
    | InvalidV            // the position field of a token is not a u32
    | InvalidVn           // the normal field of a token is not an i32
    | UnsupportedToken    // more than three '/'-separated fields
    | VIndexOutOfRange
    | VnIndexOutOfRange
    | IncompletePosition  // a `v` line with fewer than three coordinates
    | InvalidPosition     // a `v` coordinate that does not parse
    | IncompleteNormal
    | InvalidNormal

  /** A parsed face token: 1-based position index and optional 1-based normal index. */
  datatype FaceRef = FaceRef(v: nat, vn: Option<int>)

  /** `parse_face_token`: split on '/', then decide by the number of fields. */
  function ParseFaceToken(tok: string): (r: Result<FaceRef, ObjError>)
    ensures r.Ok? ==> r.value.v < U32Limit
    ensures r.Ok? && r.value.vn.Some? ==> -(I32Limit as int) <= r.value.vn.value < I32Limit
  {
    var parts := Split(tok, '/');
    if |parts| == 1 || |parts| == 2 then
      match ParseU32(parts[0])
      case None => Err(InvalidV)
      case Some(v) => Ok(FaceRef(v, None))
    else if |parts| == 3 then
      match ParseU32(parts[0])
      case None => Err(InvalidV)
      case Some(v) =>
        if parts[2] == "" then Ok(FaceRef(v, None))
        else
          match ParseI32(parts[2])
          case None => Err(InvalidVn)
          case Some(n) => Ok(FaceRef(v, Some(n)))
    else Err(UnsupportedToken)
  }

  /** The dedup key: position index and normal index, -1 standing for "no normal". */
  datatype Key = Key(v: nat, n: int)

  function KeyOf(r: FaceRef): Key
  {
    Key(r.v, if r.vn.Some? then r.vn.value else -1)
  }

  /** The loader's running state: its four vectors and the dedup map. */
  datatype ObjState = ObjState(
    positions: seq<Vec3>,
    normals: seq<Vec3>,
    vertices: seq<Vertex>,
    indices: seq<Triangle>,
    dedup: map<Key, nat>)

  const Start := ObjState([], [], [], [], map[])

  predicate KeyValid(st: ObjState, k: Key)
  {
    1 <= k.v <= |st.positions| && (k.n == -1 || 1 <= k.n <= |st.normals|)
  }

  /** The vertex a valid key denotes. */
  function VertexOf(st: ObjState, k: Key): Vertex
    requires KeyValid(st, k)
  {
    Vertex(st.positions[k.v - 1], if k.n == -1 then Zero3 else st.normals[k.n - 1])
  }

  /** Every key seen is valid and maps to a built vertex, the one it denotes. */
  predicate KeysDenote(st: ObjState)
  {
    forall k :: k in st.dedup ==>
      KeyValid(st, k) && st.dedup[k] < |st.vertices| && st.vertices[st.dedup[k]] == VertexOf(st, k)
  }

  /** Distinct keys map to distinct vertex indices. */
  predicate Injective(m: map<Key, nat>)
  {
    forall k1, k2 :: k1 in m && k2 in m && k1 != k2 ==> m[k1] != m[k2]
  }

  /**
   * The dedup map is a bijection between the keys seen and the vertices
   * built, and each vertex is the one its key denotes.
   */
  predicate DedupSound(st: ObjState)
  {
    KeysDenote(st) && Injective(st.dedup) && |st.dedup| == |st.vertices|
  }

  predicate Inv(st: ObjState)
  {
    DedupSound(st) && forall t :: t in st.indices ==> InRange(t, |st.vertices|)
  }

  datatype Resolved = Resolved(st: ObjState, index: nat)

  /**
   * One token's vertex index: the existing one for a key seen before, else a
   * new vertex from the referenced position and normal (zero when absent).
   * Index 0 has no position: `v_i - 1` wraps in a release build and the
   * lookup fails, as for any index past the end.
   */
  function ResolveRef(st: ObjState, r: FaceRef): (res: Result<Resolved, ObjError>)
    ensures res.Err? ==> KeyOf(r) !in st.dedup
    ensures res.Ok? ==> st.vertices <= res.value.st.vertices
    ensures res.Ok? ==> res.value.st.positions == st.positions && res.value.st.normals == st.normals
    ensures res.Ok? ==> res.value.st.indices == st.indices
    ensures res.Ok? ==> KeyOf(r) in res.value.st.dedup && res.value.st.dedup[KeyOf(r)] == res.value.index
    ensures res.Ok? ==> forall k :: k in st.dedup ==> k in res.value.st.dedup && res.value.st.dedup[k] == st.dedup[k]
  {
    var key := KeyOf(r);
    if key in st.dedup then Ok(Resolved(st, st.dedup[key]))
    else if !(1 <= r.v <= |st.positions|) then Err(VIndexOutOfRange)
    else if r.vn.Some? && !(1 <= r.vn.value <= |st.normals|) then Err(VnIndexOutOfRange)
    else
      var nrm := if r.vn.Some? then st.normals[r.vn.value - 1] else Zero3;
      var i := |st.vertices|;
      Ok(Resolved(st.(vertices := st.vertices + [Vertex(st.positions[r.v - 1], nrm)], dedup := st.dedup[key := i]), i))
  }

  datatype Face = Face(st: ObjState, idx: seq<nat>)

  /** The vertex indices of a face's tokens, resolved left to right. */
  function FaceIndices(st: ObjState, toks: seq<string>): (r: Result<Face, ObjError>)
    ensures r.Ok? ==> |r.value.idx| == |toks| && st.vertices <= r.value.st.vertices
  {
    if |toks| == 0 then Ok(Face(st, []))
    else
      match FaceIndices(st, toks[..|toks| - 1])
      case Err(e) => Err(e)
      case Ok(f) =>
        match ParseFaceToken(toks[|toks| - 1])
        case Err(e) => Err(e)
        case Ok(r) =>
          match ResolveRef(f.st, r)
          case Err(e) => Err(e)
          case Ok(res) => Ok(Face(res.st, f.idx + [res.index]))
  }

  /** Fan triangulation: (f0, f[i-1], f[i]) for i in 2 .. |f|-1. */
  function Fan(f: seq<nat>): seq<Triangle>
  {
    if |f| < 2 then [] else seq(|f| - 2, j requires 0 <= j < |f| - 2 => Triangle(f[0], f[j + 1], f[j + 2]))
  }

  /** A face line's effect: resolve every token, then append the fan. */
  function FaceStep(st: ObjState, toks: seq<string>): Result<ObjState, ObjError>
  {
    match FaceIndices(st, toks)
    case Err(e) => Err(e)
    case Ok(f) => Ok(f.st.(indices := f.st.indices + Fan(f.idx)))
  }

  /** Three coordinates in order, reporting the first that is missing or malformed. */
  function ParseCoords(ws: seq<string>, ops: FloatOps, incomplete: ObjError, invalid: ObjError): (r: Result<Vec3, ObjError>)
    ensures r.Ok? ==> |ws| >= 3
    ensures r.Ok? ==> ops.parseFloat(ws[0]) == Some(r.value.x) && ops.parseFloat(ws[1]) == Some(r.value.y)
    ensures r.Ok? ==> ops.parseFloat(ws[2]) == Some(r.value.z)
    ensures r.Err? ==> r.error == incomplete || r.error == invalid
  {
    if |ws| < 1 then Err(incomplete)
    else if ops.parseFloat(ws[0]).None? then Err(invalid)
    else if |ws| < 2 then Err(incomplete)
    else if ops.parseFloat(ws[1]).None? then Err(invalid)
    else if |ws| < 3 then Err(incomplete)
    else if ops.parseFloat(ws[2]).None? then Err(invalid)
    else Ok(Vec3(ops.parseFloat(ws[0]).value, ops.parseFloat(ws[1]).value, ops.parseFloat(ws[2]).value))
  }

  /** The words after the record's keyword. */
  function Fields(s: string): seq<string>
  {
    var words := SplitWhitespace(s);
    if |words| == 0 then [] else words[1..]
  }

  /** A record written as its keyword and its words, separated by single spaces, has exactly those words as fields. */
  lemma FieldsAfterKeyword(kw: string, ws: seq<string>)
    requires Words([kw] + ws)
    ensures Fields(Join([kw] + ws, ' ')) == ws
  {
    SplitWhitespaceJoin([kw] + ws, ' ');
    assert ([kw] + ws)[1..] == ws;
  }

  /** One line of the file. */
  function LineStep(st: ObjState, line: string, ops: FloatOps): Result<ObjState, ObjError>
  {
    var s := Trim(line);
    if |s| == 0 || s[0] == '#' then Ok(st)
    else if StartsWith(s, "v ") then
      match ParseCoords(Fields(s), ops, IncompletePosition, InvalidPosition)
      case Err(e) => Err(e)
      case Ok(p) => Ok(st.(positions := st.positions + [p]))
    else if StartsWith(s, "vn ") then
      match ParseCoords(Fields(s), ops, IncompleteNormal, InvalidNormal)
      case Err(e) => Err(e)
      case Ok(n) => Ok(st.(normals := st.normals + [ops.normalize(n)]))
    else if s[0] == 'f' then
      var parts := SplitWhitespace(s);
      if |parts| < 4 then Err(FaceTooShort) else FaceStep(st, parts[1..])
    else Ok(st)
  }

  /** The lines in file order; the first error ends the load. */
  function LoadLines(lines: seq<string>, ops: FloatOps): Result<ObjState, ObjError>
  {
    if |lines| == 0 then Ok(Start)
    else
      match LoadLines(lines[..|lines| - 1], ops)
      case Err(e) => Err(e)
      case Ok(st) => LineStep(st, lines[|lines| - 1], ops)
  }

  /** `load_obj` on the file's lines, before the normal recomputation. */
  function LoadObjSpec(lines: seq<string>, ops: FloatOps): Result<Mesh, ObjError>
  {
    match LoadLines(lines, ops)
    case Err(e) => Err(e)
    case Ok(st) => Ok(Mesh(st.vertices, st.indices))
  }

  // ---------------------------------------------------------------------------
  // Face tokens
  // ---------------------------------------------------------------------------

  /** "a" parses to (a, None). */
  lemma FaceTokenPlain(a: nat)
    requires a < U32Limit
    ensures ParseFaceToken(NatToString(a)) == Ok(FaceRef(a, None))
  {
    NatToStringPlain(a, '/');
    ParseU32RoundTrip(a);
    SplitNoSep(NatToString(a), '/');
  }

  /** "a/b" parses to (a, None): the texture field is never read. */
  lemma FaceTokenNoNormal(a: nat, b: string)
    requires a < U32Limit && '/' !in b
    ensures ParseFaceToken(NatToString(a) + "/" + b) == Ok(FaceRef(a, None))
  {
    var sa := NatToString(a);
    NatToStringPlain(a, '/');
    ParseU32RoundTrip(a);
    SplitNoSep(b, '/');
    SplitCons(sa, '/', b);
    assert sa + "/" + b == sa + ['/'] + b;
  }

  /** "a/b/c", including "a//c", parses to (a, Some(c)): the texture field is never read. */
  lemma FaceTokenWithNormal(a: nat, b: string, c: nat)
    requires a < U32Limit && c < I32Limit && '/' !in b
    ensures ParseFaceToken(NatToString(a) + "/" + b + "/" + NatToString(c)) == Ok(FaceRef(a, Some(c)))
  {
    var sa, sc := NatToString(a), NatToString(c);
    NatToStringPlain(a, '/');
    NatToStringPlain(c, '/');
    ParseU32RoundTrip(a);
    ParseI32RoundTrip(c);
    SplitThree(sa, b, sc, '/');
    assert sa + "/" + b + "/" + sc == sa + ['/'] + b + ['/'] + sc;
  }

  /** "a//" carries no normal index: an empty last field counts as absent. */
  lemma FaceTokenEmptyNormal(a: nat)
    requires a < U32Limit
    ensures ParseFaceToken(NatToString(a) + "//") == Ok(FaceRef(a, None))
  {
    var sa := NatToString(a);
    NatToStringPlain(a, '/');
    ParseU32RoundTrip(a);
    SplitNoSep(sa, '/');
    SplitNoSep("", '/');
    SplitCons("", '/', "");
    assert Split("/", '/') == ["", ""];
    SplitCons(sa, '/', "/");
    assert sa + "//" == sa + ['/'] + "/";
  }

  /** "1/2/3" is accepted as position 1 with normal 3 (the source's own unit test expects an error here). */
  lemma FaceTokenFullForm()
    ensures ParseFaceToken("1/2/3") == Ok(FaceRef(1, Some(3)))
  {
    FaceTokenWithNormal(1, "2", 3);
    assert NatToString(1) == "1" && NatToString(3) == "3";
    assert "1/2/3" == NatToString(1) + "/" + "2" + "/" + NatToString(3);
  }

  /**
   * A token is accepted exactly when it has at most three fields, its first
   * field is a u32 and its third field, if present and non-empty, is an i32.
   * It then returns that u32; its normal is the third field read as an i32
   * when that field is present and non-empty, and absent otherwise.
   */
  lemma FaceTokenAccepted(tok: string)
    ensures var parts := Split(tok, '/');
      ParseFaceToken(tok).Ok? <==>
        |parts| <= 3 && ParseU32(parts[0]).Some? && (|parts| < 3 || parts[2] == "" || ParseI32(parts[2]).Some?)
    ensures var parts := Split(tok, '/');
      ParseFaceToken(tok).Ok? ==>
        ParseU32(parts[0]) == Some(ParseFaceToken(tok).value.v) &&
        ParseFaceToken(tok).value.vn == (if |parts| == 3 && parts[2] != "" then ParseI32(parts[2]) else None)
  {
  }

  /** A first field that is not a u32 is InvalidV, unless there are too many fields. */
  lemma FaceTokenInvalidV(tok: string)
    requires |Split(tok, '/')| <= 3 && ParseU32(Split(tok, '/')[0]).None?
    ensures ParseFaceToken(tok) == Err(InvalidV)
  {
  }

  /** A non-empty third field that is not an i32 is InvalidVn. */
  lemma FaceTokenInvalidVn(tok: string)
    requires var parts := Split(tok, '/');
      |parts| == 3 && ParseU32(parts[0]).Some? && parts[2] != "" && ParseI32(parts[2]).None?
    ensures ParseFaceToken(tok) == Err(InvalidVn)
  {
  }

  /** "a/b/-c" parses to (a, Some(-c)): a negative normal index is accepted here and rejected only on lookup. */
  lemma FaceTokenNegativeNormal(a: nat, b: string, c: nat)
    requires a < U32Limit && 0 < c <= I32Limit && '/' !in b
    ensures ParseFaceToken(NatToString(a) + "/" + b + "/-" + NatToString(c)) == Ok(FaceRef(a, Some(-(c as int))))
  {
    var sa, sc := NatToString(a), "-" + NatToString(c);
    NatToStringPlain(a, '/');
    NatToStringPlain(c, '/');
    assert '/' !in sc;
    ParseU32RoundTrip(a);
    ParseI32NegRoundTrip(c);
    SplitThree(sa, b, sc, '/');
    assert sa + "/" + b + "/-" + NatToString(c) == sa + ['/'] + b + ['/'] + sc;
  }

  /** More than three fields is an error whatever the fields hold. */
  lemma FaceTokenTooManyFields(tok: string)
    requires |Split(tok, '/')| > 3
    ensures ParseFaceToken(tok) == Err(UnsupportedToken)
  {
  }

  // ---------------------------------------------------------------------------
  // Deduplication, fan triangulation and the index invariant
  // ---------------------------------------------------------------------------

  /** A key seen before reuses its vertex and adds nothing. */
  lemma ResolveReuses(st: ObjState, r: FaceRef)
    requires KeyOf(r) in st.dedup
    ensures ResolveRef(st, r) == Ok(Resolved(st, st.dedup[KeyOf(r)]))
  {
  }

  /** A fresh key mapped to an index above all others keeps the map injective and grows it by one. */
  lemma InsertFreshIndex(m: map<Key, nat>, key: Key, i: nat)
    requires Injective(m) && key !in m && forall k :: k in m ==> m[k] < i
    ensures Injective(m[key := i]) && |m[key := i]| == |m| + 1
  {
    var d := m[key := i];
    assert d.Keys == m.Keys + {key};
    forall k1, k2 | k1 in d && k2 in d && k1 != k2
      ensures d[k1] != d[k2]
    {
      if k1 == key {
        assert d[k2] == m[k2];
      } else if k2 == key {
        assert d[k1] == m[k1];
      }
    }
  }

  /** Adding the vertex an unseen valid key denotes keeps the dedup map sound. */
  lemma InsertKeepsDedupSound(st: ObjState, key: Key)
    requires DedupSound(st) && key !in st.dedup && KeyValid(st, key)
    ensures DedupSound(st.(vertices := st.vertices + [VertexOf(st, key)], dedup := st.dedup[key := |st.vertices|]))
  {
    var i := |st.vertices|;
    var st' := st.(vertices := st.vertices + [VertexOf(st, key)], dedup := st.dedup[key := i]);
    InsertFreshIndex(st.dedup, key, i);
    forall k | k in st'.dedup
      ensures KeyValid(st', k) && st'.dedup[k] < |st'.vertices| && st'.vertices[st'.dedup[k]] == VertexOf(st', k)
    {
      if k != key {
        assert st'.vertices[st.dedup[k]] == st.vertices[st.dedup[k]];
      }
    }
  }

  /** Resolving a token keeps the invariant and returns the index of the vertex the token denotes. */
  lemma ResolvePreservesInv(st: ObjState, r: FaceRef)
    requires Inv(st) && ResolveRef(st, r).Ok?
    ensures var res := ResolveRef(st, r).value;
      Inv(res.st) && res.index < |res.st.vertices| &&
      res.st.positions == st.positions && res.st.normals == st.normals && res.st.indices == st.indices &&
      st.vertices <= res.st.vertices &&
      KeyOf(r) in res.st.dedup && res.st.dedup[KeyOf(r)] == res.index &&
      (forall k :: k in st.dedup ==> k in res.st.dedup && res.st.dedup[k] == st.dedup[k]) &&
      |res.st.vertices| == |st.vertices| + (if KeyOf(r) in st.dedup then 0 else 1)
  {
    var key := KeyOf(r);
    if key !in st.dedup {
      var res := ResolveRef(st, r).value;
      assert KeyValid(st, key);
      assert res.st == st.(vertices := st.vertices + [VertexOf(st, key)], dedup := st.dedup[key := |st.vertices|]);
      InsertKeepsDedupSound(st, key);
      forall t | t in res.st.indices
        ensures InRange(t, |res.st.vertices|)
      {
        assert t in st.indices;
      }
    }
  }

  /**
   * Resolving a face's tokens keeps the invariant and yields, for each token,
   * the index the dedup map gives its key, which is the vertex that token
   * denotes; keys seen before the face keep their indices.
   */
  lemma {:induction false} FaceIndicesPreservesInv(st: ObjState, toks: seq<string>)
    requires Inv(st) && FaceIndices(st, toks).Ok?
    ensures var f := FaceIndices(st, toks).value;
      Inv(f.st) && |f.idx| == |toks| && (forall j :: 0 <= j < |f.idx| ==> f.idx[j] < |f.st.vertices|) &&
      f.st.positions == st.positions && f.st.normals == st.normals && f.st.indices == st.indices &&
      (forall k :: k in st.dedup ==> k in f.st.dedup && f.st.dedup[k] == st.dedup[k]) &&
      (forall j :: 0 <= j < |toks| ==>
        ParseFaceToken(toks[j]).Ok? && KeyOf(ParseFaceToken(toks[j]).value) in f.st.dedup &&
        f.st.dedup[KeyOf(ParseFaceToken(toks[j]).value)] == f.idx[j])
  {
    FaceIndicesNameTokens(st, toks);
    if |toks| > 0 {
      var prefix := toks[..|toks| - 1];
      FaceIndicesPreservesInv(st, prefix);
      var f := FaceIndices(st, prefix).value;
      var r := ParseFaceToken(toks[|toks| - 1]).value;
      ResolvePreservesInv(f.st, r);
    }
  }

  /**
   * Whatever the state, a resolved face maps each token's key to that token's
   * index, and keys known before the face keep their indices.
   */
  lemma {:induction false} FaceIndicesNameTokens(st: ObjState, toks: seq<string>)
    requires FaceIndices(st, toks).Ok?
    ensures var f := FaceIndices(st, toks).value;
      (forall k :: k in st.dedup ==> k in f.st.dedup && f.st.dedup[k] == st.dedup[k]) &&
      (forall j :: 0 <= j < |toks| ==>
        ParseFaceToken(toks[j]).Ok? && KeyOf(ParseFaceToken(toks[j]).value) in f.st.dedup &&
        f.st.dedup[KeyOf(ParseFaceToken(toks[j]).value)] == f.idx[j])
  {
    if |toks| > 0 {
      var prefix := toks[..|toks| - 1];
      FaceIndicesNameTokens(st, prefix);
      var f := FaceIndices(st, prefix).value;
      var r := ParseFaceToken(toks[|toks| - 1]).value;
      var res := ResolveRef(f.st, r).value;
      var g := FaceIndices(st, toks).value;
      assert g == Face(res.st, f.idx + [res.index]);
      forall j | 0 <= j < |toks|
        ensures ParseFaceToken(toks[j]).Ok? && KeyOf(ParseFaceToken(toks[j]).value) in g.st.dedup &&
          g.st.dedup[KeyOf(ParseFaceToken(toks[j]).value)] == g.idx[j]
      {
        if j < |toks| - 1 {
          assert toks[j] == prefix[j];
        }
      }
    }
  }

  /** A face of k vertex indices gives k - 2 triangles, all sharing the first vertex. */
  lemma FanShape(f: seq<nat>)
    requires |f| >= 2
    ensures |Fan(f)| == |f| - 2
    ensures forall i :: 2 <= i < |f| ==> Fan(f)[i - 2] == Triangle(f[0], f[i - 1], f[i])
  {
  }

  /** Fan triangles only use the face's indices, so they are in range when those are. */
  lemma FanInRange(f: seq<nat>, n: nat)
    requires forall j :: 0 <= j < |f| ==> f[j] < n
    ensures forall t :: t in Fan(f) ==> InRange(t, n)
  {
  }

  /** A face step keeps the invariant and appends exactly the fan of its tokens' indices. */
  lemma FaceStepPreservesInv(st: ObjState, toks: seq<string>)
    requires Inv(st) && FaceStep(st, toks).Ok?
    ensures Inv(FaceStep(st, toks).value)
    ensures |FaceStep(st, toks).value.indices| == |st.indices| + (if |toks| < 2 then 0 else |toks| - 2)
    ensures st.indices <= FaceStep(st, toks).value.indices
  {
    FaceIndicesPreservesInv(st, toks);
    var f := FaceIndices(st, toks).value;
    FanInRange(f.idx, |f.st.vertices|);
    var r := FaceStep(st, toks).value;
    forall t | t in r.indices
      ensures InRange(t, |r.vertices|)
    {
      if t !in f.st.indices {
        assert t in Fan(f.idx);
      }
    }
  }

  /** A new position or normal leaves every existing key's vertex as it was. */
  lemma GrowKeepsInv(st: ObjState, p: Vec3, n: Vec3)
    requires Inv(st)
    ensures Inv(st.(positions := st.positions + [p]))
    ensures Inv(st.(normals := st.normals + [n]))
  {
    var a, b := st.(positions := st.positions + [p]), st.(normals := st.normals + [n]);
    forall k | k in st.dedup
      ensures KeyValid(a, k) && VertexOf(a, k) == VertexOf(st, k)
      ensures KeyValid(b, k) && VertexOf(b, k) == VertexOf(st, k)
    {
    }
  }

  /** Every line keeps the invariant. */
  lemma LineStepPreservesInv(st: ObjState, line: string, ops: FloatOps)
    requires Inv(st) && LineStep(st, line, ops).Ok?
    ensures Inv(LineStep(st, line, ops).value)
  {
    var s := Trim(line);
    if |s| == 0 || s[0] == '#' {
    } else if StartsWith(s, "v ") {
      var p := ParseCoords(Fields(s), ops, IncompletePosition, InvalidPosition).value;
      GrowKeepsInv(st, p, p);
    } else if StartsWith(s, "vn ") {
      var n := ParseCoords(Fields(s), ops, IncompleteNormal, InvalidNormal).value;
      GrowKeepsInv(st, n, ops.normalize(n));
    } else if s[0] == 'f' {
      var parts := SplitWhitespace(s);
      if |parts| >= 4 {
        FaceStepPreservesInv(st, parts[1..]);
      }
    }
  }

  lemma {:induction false} LoadLinesInv(lines: seq<string>, ops: FloatOps)
    requires LoadLines(lines, ops).Ok?
    ensures Inv(LoadLines(lines, ops).value)
  {
    if |lines| > 0 {
      LoadLinesInv(lines[..|lines| - 1], ops);
      LineStepPreservesInv(LoadLines(lines[..|lines| - 1], ops).value, lines[|lines| - 1], ops);
    }
  }

  /**
   * A loaded mesh is well formed: every triangle index is below the vertex
   * count, and there is one vertex per distinct (position, normal) key.
   */
  lemma LoadedMeshWellFormed(lines: seq<string>, ops: FloatOps)
    requires LoadObjSpec(lines, ops).Ok?
    ensures LoadObjSpec(lines, ops).value.WellFormed()
    ensures |LoadObjSpec(lines, ops).value.vertices| == |LoadLines(lines, ops).value.dedup|
  {
    LoadLinesInv(lines, ops);
  }

  /** Blank lines, comments and unrecognised records change nothing. */
  lemma IgnoredLines(st: ObjState, line: string, ops: FloatOps)
    requires var s := Trim(line);
      |s| == 0 || s[0] == '#' || (s[0] != 'f' && !StartsWith(s, "v ") && !StartsWith(s, "vn "))
    ensures LineStep(st, line, ops) == Ok(st)
  {
  }

  /** A face line with fewer than three vertex tokens is an error. */
  lemma ShortFaceRejected(st: ObjState, line: string, ops: FloatOps)
    requires var s := Trim(line); |s| > 0 && s[0] == 'f' && |SplitWhitespace(s)| < 4
    ensures LineStep(st, line, ops) == Err(FaceTooShort)
  {
    var s := Trim(line);
    assert !StartsWith(s, "v ") && !StartsWith(s, "vn ");
  }

  /** An unseen key whose position or normal index is out of range is an error. */
  lemma OutOfRangeRejected(st: ObjState, r: FaceRef)
    requires KeyOf(r) !in st.dedup
    ensures !(1 <= r.v <= |st.positions|) ==> ResolveRef(st, r) == Err(VIndexOutOfRange)
    ensures 1 <= r.v <= |st.positions| && r.vn.Some? && !(1 <= r.vn.value <= |st.normals|) ==>
      ResolveRef(st, r) == Err(VnIndexOutOfRange)
  {
  }

  /**
   * The key of "a//-1" is the key of "a": once "a" has been seen, "a//-1"
   * silently reuses its vertex, while on its own it is an out-of-range error.
   */
  lemma SentinelNormalCollides(st: ObjState, a: nat)
    requires a < U32Limit && 1 <= a <= |st.positions|
    ensures KeyOf(FaceRef(a, Some(-1))) == KeyOf(FaceRef(a, None))
    ensures Key(a, -1) in st.dedup ==> ResolveRef(st, FaceRef(a, Some(-1))) == Ok(Resolved(st, st.dedup[Key(a, -1)]))
    ensures Key(a, -1) !in st.dedup ==> ResolveRef(st, FaceRef(a, Some(-1))) == Err(VnIndexOutOfRange)
  {
  }

  // ---------------------------------------------------------------------------
  // The loader's loops
  // ---------------------------------------------------------------------------

  lemma {:induction false} FaceIndicesErrStops(st: ObjState, toks: seq<string>, k: nat)
    requires k <= |toks| && FaceIndices(st, toks[..k]).Err?
    ensures FaceIndices(st, toks) == FaceIndices(st, toks[..k])
    decreases |toks| - k
  {
    if k < |toks| {
      assert toks[..k + 1][..k] == toks[..k];
      FaceIndicesErrStops(st, toks, k + 1);
    } else {
      assert toks[..k] == toks;
    }
  }

  lemma {:induction false} LoadLinesErrStops(lines: seq<string>, ops: FloatOps, k: nat)
    requires k <= |lines| && LoadLines(lines[..k], ops).Err?
    ensures LoadLines(lines, ops) == LoadLines(lines[..k], ops)
    decreases |lines| - k
  {
    if k < |lines| {
      assert lines[..k + 1][..k] == lines[..k];
      LoadLinesErrStops(lines, ops, k + 1);
    } else {
      assert lines[..k] == lines;
    }
  }

  /** The fan loop of a face line: appends (f0, f[i-1], f[i]) for i = 2, 3, ... */
  method AppendFan(indices: seq<Triangle>, f: seq<nat>) returns (r: seq<Triangle>)
    ensures r == indices + Fan(f)
  {
    r := indices;
    if |f| >= 2 {
      var i := 2;
      while i < |f|
        invariant 2 <= i <= |f|
        invariant r == indices + Fan(f[..i])
      {
        assert Fan(f[..i + 1]) == Fan(f[..i]) + [Triangle(f[0], f[i - 1], f[i])];
        r := r + [Triangle(f[0], f[i - 1], f[i])];
        i := i + 1;
      }
      assert f[..i] == f;
    }
  }

  /** The token loop of one face line, then its fan. */
  method ProcessFace(st: ObjState, toks: seq<string>) returns (r: Result<ObjState, ObjError>)
    ensures r == FaceStep(st, toks)
  {
    var vertices: seq<Vertex>, dedup: map<Key, nat> := st.vertices, st.dedup;
    var faceIdx: seq<nat> := [];
    var k := 0;
    while k < |toks|
      invariant 0 <= k <= |toks|
      invariant FaceIndices(st, toks[..k]) == Ok(Face(st.(vertices := vertices, dedup := dedup), faceIdx))
    {
      assert toks[..k + 1][..k] == toks[..k];
      var parsed := ParseFaceToken(toks[k]);
      if parsed.Err? {
        FaceIndicesErrStops(st, toks, k + 1);
        return Err(parsed.error);
      }
      var ref := parsed.value;
      var key := KeyOf(ref);
      var idx: nat;
      if key in dedup {
        idx := dedup[key];
      } else {
        if !(1 <= ref.v <= |st.positions|) {
          FaceIndicesErrStops(st, toks, k + 1);
          return Err(VIndexOutOfRange);
        }
        var nrm := Zero3;
        if ref.vn.Some? {
          if !(1 <= ref.vn.value <= |st.normals|) {
            FaceIndicesErrStops(st, toks, k + 1);
            return Err(VnIndexOutOfRange);
          }
          nrm := st.normals[ref.vn.value - 1];
        }
        idx := |vertices|;
        vertices := vertices + [Vertex(st.positions[ref.v - 1], nrm)];
        dedup := dedup[key := idx];
      }
      faceIdx := faceIdx + [idx];
      k := k + 1;
    }
    assert toks[..k] == toks;
    var indices := AppendFan(st.indices, faceIdx);
    return Ok(ObjState(st.positions, st.normals, vertices, indices, dedup));
  }

  /** The body of the line loop: one trimmed line, dispatched on its record type. */
  method ProcessLine(st: ObjState, line: string, ops: FloatOps) returns (r: Result<ObjState, ObjError>)
    ensures r == LineStep(st, line, ops)
  {
    var s := Trim(line);
    if |s| == 0 || s[0] == '#' {
      return Ok(st);
    }
    if StartsWith(s, "v ") {
      var p := ParseCoords(Fields(s), ops, IncompletePosition, InvalidPosition);
      if p.Err? {
        return Err(p.error);
      }
      return Ok(st.(positions := st.positions + [p.value]));
    } else if StartsWith(s, "vn ") {
      var n := ParseCoords(Fields(s), ops, IncompleteNormal, InvalidNormal);
      if n.Err? {
        return Err(n.error);
      }
      return Ok(st.(normals := st.normals + [ops.normalize(n.value)]));
    } else if s[0] == 'f' {
      var parts := SplitWhitespace(s);
      if |parts| < 4 {
        return Err(FaceTooShort);
      }
      r := ProcessFace(st, parts[1..]);
    } else {
      return Ok(st);
    }
  }

  /** `load_obj` over the file's lines: the resulting mesh and its index invariant. */
  method LoadObj(lines: seq<string>, ops: FloatOps) returns (r: Result<Mesh, ObjError>)
    ensures r == LoadObjSpec(lines, ops)
    ensures r.Ok? ==> r.value.WellFormed()
  {
    var st := Start;
    var k := 0;
    while k < |lines|
      invariant 0 <= k <= |lines|
      invariant LoadLines(lines[..k], ops) == Ok(st)
    {
      assert lines[..k + 1][..k] == lines[..k];
      var next := ProcessLine(st, lines[k], ops);
      if next.Err? {
        LoadLinesErrStops(lines, ops, k + 1);
        return Err(next.error);
      }
      st := next.value;
      k := k + 1;
    }
    assert lines[..k] == lines;
    r := Ok(Mesh(st.vertices, st.indices));
    LoadedMeshWellFormed(lines, ops);
  }
}

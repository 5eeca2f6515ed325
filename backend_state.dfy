/** State bookkeeping of the base rendering backend: three 4x4 transforms
    (projection, view, world), a background colour and a signed viewport
    rectangle, with copy-in/copy-out operations that report a status code. */
module BaseBackend {

  /** Outcome of every state operation (status_t). */
  datatype Status = Ok | BadArguments | InvalidValue

  /** A 32-bit float. The state operations only copy floats and store the
      exact constants 0 and 1, so a real number carries the value. */
  type Float = real

  /** ssize_t: a signed 64-bit integer. */
  type SSize = x: int | -0x8000_0000_0000_0000 <= x < 0x8000_0000_0000_0000

  /** Number of floats in a 4x4 matrix (mat4_t). */
  const MatrixSize: nat := 16

  /** The three matrix kinds, in the order of the matrix_type_t enumeration.
      The kind travels as a plain integer, so any other value is possible
      and selects the `default` branch of the switch. */
  const MatrixProjection: int := 0
  const MatrixView: int := 1
  const MatrixWorld: int := 2

  predicate IsMatrixKind(kind: int)
  {
    kind == MatrixProjection || kind == MatrixView || kind == MatrixWorld
  }

  /** The 4x4 identity in flat storage (index row + 4 * col): the diagonal
      entries are the indices divisible by 5. */
  function Identity(): (m: seq<Float>)
    ensures |m| == MatrixSize
    ensures forall i :: 0 <= i < MatrixSize ==>
              m[i] == if i == 0 || i == 5 || i == 10 || i == 15 then 1.0 else 0.0
  {
    seq(MatrixSize, i => if i % 5 == 0 then 1.0 else 0.0)
  }

  /** The value held by a mat4_t. */
  type Matrix = m: seq<Float> | |m| == MatrixSize witness Identity()

  /** color_t: four float channels. */
  datatype Color = Color(r: Float, g: Float, b: Float, a: Float)

  /** The background colour set by init: opaque black. */
  const OpaqueBlack: Color := Color(0.0, 0.0, 0.0, 1.0)

  /** The viewport rectangle, stored verbatim without range checks. */
  datatype Viewport = Viewport(left: SSize, top: SSize, width: SSize, height: SSize)

  /** The abstract value of a backend's state. */
  datatype State = State(projection: Matrix, view: Matrix, world: Matrix,
                         background: Color, viewport: Viewport)
  {
    /** The transform slot a matrix kind selects. */
    function Transform(kind: int): Matrix
      requires IsMatrixKind(kind)
    {
      if kind == MatrixProjection then projection
      else if kind == MatrixView then view
      else world
    }

    /** This state with the slot of `kind` replaced by `m`. */
    function WithTransform(kind: int, m: Matrix): State
      requires IsMatrixKind(kind)
    {
      if kind == MatrixProjection then this.(projection := m)
      else if kind == MatrixView then this.(view := m)
      else this.(world := m)
    }
  }

  /** The state init establishes. */
  function InitialState(): State
  {
    State(Identity(), Identity(), Identity(), OpaqueBlack, Viewport(0, 0, 1, 1))
  }

  /** Storing a matrix under one kind makes it the value read back under
      that kind, and leaves the other two slots, the colour and the
      viewport as they were. */
  lemma TransformAfterWithTransform(s: State, kind: int, other: int, m: Matrix)
    requires IsMatrixKind(kind) && IsMatrixKind(other)
    ensures s.WithTransform(kind, m).Transform(kind) == m
    ensures other != kind ==> s.WithTransform(kind, m).Transform(other) == s.Transform(other)
    ensures s.WithTransform(kind, m).background == s.background
    ensures s.WithTransform(kind, m).viewport == s.viewport
  {
  }

  /** Storing the matrix a slot already holds changes nothing, and a second
      store under the same kind overrides the first. */
  lemma WithTransformIdempotent(s: State, kind: int, m: Matrix, m': Matrix)
    requires IsMatrixKind(kind)
    ensures s.WithTransform(kind, s.Transform(kind)) == s
    ensures s.WithTransform(kind, m).WithTransform(kind, m') == s.WithTransform(kind, m')
  {
  }

  /** Every matrix slot of the state init establishes is the identity,
      whatever the kind. */
  lemma InitialTransforms(kind: int)
    requires IsMatrixKind(kind)
    ensures InitialState().Transform(kind) == Identity()
  {
  }

  /** A heap cell holding one value: what a non-null `T *` points to. */
  class Cell<T> {
    var value: T

    constructor (v: T)
      ensures value == v
    {
      value := v;
    }
  }

  /** base_backend_t: the state record every concrete backend embeds. */
  class Backend {
    var matProjection: array<Float>
    var matView: array<Float>
    var matWorld: array<Float>
    var colBackground: Color
    var viewLeft: SSize
    var viewTop: SSize
    var viewWidth: SSize
    var viewHeight: SSize

    /** The three matrices are distinct buffers of 16 floats each. */
    ghost predicate Valid()
      reads this
    {
      matProjection.Length == MatrixSize &&
      matView.Length == MatrixSize &&
      matWorld.Length == MatrixSize &&
      matProjection != matView && matView != matWorld && matProjection != matWorld
    }

    /** True when `m` is one of the backend's own matrix buffers. */
    ghost predicate IsOwnBuffer(m: array?<Float>)
      reads this
    {
      m == matProjection || m == matView || m == matWorld
    }

    /** The abstract value of this backend. */
    ghost function Model(): State
      requires Valid()
      reads this, matProjection, matView, matWorld
    {
      State(matProjection[..], matView[..], matWorld[..], colBackground,
            Viewport(viewLeft, viewTop, viewWidth, viewHeight))
    }

    /** The constructor zeroes the viewport only; the matrices and the colour
        are left unspecified until init runs. */
    constructor ()
      ensures Valid()
      ensures fresh(matProjection) && fresh(matView) && fresh(matWorld)
      ensures Model().viewport == Viewport(0, 0, 0, 0)
    {
      matProjection := new Float[MatrixSize];
      matView := new Float[MatrixSize];
      matWorld := new Float[MatrixSize];
      colBackground := *;
      viewLeft := 0;
      viewTop := 0;
      viewWidth := 0;
      viewHeight := 0;
    }

    /** Overwrites a matrix buffer with the identity: zero-fill, then the
        four diagonal entries. */
    static method InitMatrixIdentity(m: array<Float>)
      requires m.Length == MatrixSize
      modifies m
      ensures m[..] == Identity()
    {
      forall i | 0 <= i < m.Length {
        m[i] := 0.0;
      }
      m[0] := 1.0;
      m[5] := 1.0;
      m[10] := 1.0;
      m[15] := 1.0;
    }

    /** Struct assignment `*dst = *src` of a mat4_t; the two may be the
        same buffer. */
    static method CopyMatrix(dst: array<Float>, src: array<Float>)
      requires dst.Length == MatrixSize && src.Length == MatrixSize
      modifies dst
      ensures dst[..] == old(src[..])
    {
      forall i | 0 <= i < MatrixSize {
        dst[i] := src[i];
      }
    }

    /** Resets the viewport to (0,0,1,1), the background to opaque black and
        all three transforms to the identity; always succeeds. */
    method Init() returns (st: Status)
      requires Valid()
      modifies this`viewLeft, this`viewTop, this`viewWidth, this`viewHeight
      modifies this`colBackground, matProjection, matView, matWorld
      ensures Valid()
      ensures st == Ok
      ensures Model() == InitialState()
    {
      viewLeft := 0;
      viewTop := 0;
      viewWidth := 1;
      viewHeight := 1;
      colBackground := Color(0.0, 0.0, 0.0, 1.0);

      InitMatrixIdentity(matProjection);
      InitMatrixIdentity(matView);
      InitMatrixIdentity(matWorld);

      st := Ok;
    }

    /** Copies `*m` into the slot `kind` selects. A null `m` is rejected
        first; an unrecognised kind is rejected without writing anything. */
    method SetMatrix(kind: int, m: array?<Float>) returns (st: Status)
      requires Valid()
      requires m != null ==> m.Length == MatrixSize
      modifies matProjection, matView, matWorld
      ensures Valid()
      ensures m == null ==> st == BadArguments
      ensures m != null && !IsMatrixKind(kind) ==> st == InvalidValue
      ensures m != null && IsMatrixKind(kind) ==>
                st == Ok && Model() == old(Model()).WithTransform(kind, old(m[..]))
      ensures st != Ok ==> Model() == old(Model())
    {
      if m == null {
        return BadArguments;
      }

      if kind == MatrixProjection {
        CopyMatrix(matProjection, m);
      } else if kind == MatrixView {
        CopyMatrix(matView, m);
      } else if kind == MatrixWorld {
        CopyMatrix(matWorld, m);
      } else {
        return InvalidValue;
      }
      return Ok;
    }

    /** Copies the slot `kind` selects into `*m`, with the same error
        order as SetMatrix. When `m` is not one of the backend's three
        matrix buffers, the state is unchanged. */
    method GetMatrix(kind: int, m: array?<Float>) returns (st: Status)
      requires Valid()
      requires m != null ==> m.Length == MatrixSize
      modifies m
      ensures Valid()
      ensures m == null ==> st == BadArguments
      ensures m != null && !IsMatrixKind(kind) ==> st == InvalidValue && m[..] == old(m[..])
      ensures m != null && IsMatrixKind(kind) ==> st == Ok && m[..] == old(Model()).Transform(kind)
      ensures !IsOwnBuffer(m) || st != Ok ==> Model() == old(Model())
    {
      if m == null {
        return BadArguments;
      }

      if kind == MatrixProjection {
        CopyMatrix(m, matProjection);
      } else if kind == MatrixView {
        CopyMatrix(m, matView);
      } else if kind == MatrixWorld {
        CopyMatrix(m, matWorld);
      } else {
        return InvalidValue;
      }
      return Ok;
    }

    /** Stores the viewport rectangle verbatim; always succeeds. */
    method Locate(left: SSize, top: SSize, width: SSize, height: SSize) returns (st: Status)
      requires Valid()
      modifies this`viewLeft, this`viewTop, this`viewWidth, this`viewHeight
      ensures Valid()
      ensures st == Ok
      ensures Model() == old(Model()).(viewport := Viewport(left, top, width, height))
    {
      viewLeft := left;
      viewTop := top;
      viewWidth := width;
      viewHeight := height;
      st := Ok;
    }

    /** Writes each stored viewport value through its slot when that slot is
        not null, in the order left, top, width, height (so when two slots
        are the same cell, the later value stays); always succeeds and
        never changes the backend. */
    method GetLocation(left: Cell?<SSize>, top: Cell?<SSize>, width: Cell?<SSize>, height: Cell?<SSize>)
      returns (st: Status)
      requires Valid()
      modifies left, top, width, height
      ensures Valid()
      ensures st == Ok
      ensures Model() == old(Model())
      ensures height != null ==> height.value == viewHeight
      ensures width != null && width != height ==> width.value == viewWidth
      ensures top != null && top != width && top != height ==> top.value == viewTop
      ensures left != null && left != top && left != width && left != height ==> left.value == viewLeft
    {
      if left != null {
        left.value := viewLeft;
      }
      if top != null {
        top.value := viewTop;
      }
      if width != null {
        width.value := viewWidth;
      }
      if height != null {
        height.value := viewHeight;
      }
      st := Ok;
    }

    /** Copies `*color` into the background; a null pointer is rejected. */
    method SetBgColor(color: Cell?<Color>) returns (st: Status)
      requires Valid()
      modifies this`colBackground
      ensures Valid()
      ensures color == null ==> st == BadArguments && Model() == old(Model())
      ensures color != null ==> st == Ok && Model() == old(Model()).(background := color.value)
    {
      if color == null {
        return BadArguments;
      }
      colBackground := color.value;
      return Ok;
    }

    /** Copies the background into `*color`; a null pointer is rejected.
        The backend never changes. */
    method GetBgColor(color: Cell?<Color>) returns (st: Status)
      requires Valid()
      modifies color
      ensures Valid()
      ensures Model() == old(Model())
      ensures color == null ==> st == BadArguments
      ensures color != null ==> st == Ok && color.value == colBackground
    {
      if color == null {
        return BadArguments;
      }
      color.value := colBackground;
      return Ok;
    }
  }

  /** set_matrix followed by get_matrix under the same kind reads back the
      matrix stored, and the other two slots, the colour and the viewport
      are untouched; an unrecognised kind is rejected by both calls and
      nothing is written. */
  method MatrixRoundTrip(b: Backend, kind: int, m: array<Float>, out: array<Float>)
    returns (st1: Status, st2: Status)
    requires b.Valid() && m.Length == MatrixSize && out.Length == MatrixSize
    requires !b.IsOwnBuffer(out)
    modifies b.matProjection, b.matView, b.matWorld, out
    ensures b.Valid()
    ensures IsMatrixKind(kind) ==>
              st1 == Ok && st2 == Ok && out[..] == old(m[..]) &&
              b.Model() == old(b.Model()).WithTransform(kind, old(m[..]))
    ensures !IsMatrixKind(kind) ==>
              st1 == InvalidValue && st2 == InvalidValue &&
              out[..] == old(out[..]) && b.Model() == old(b.Model())
  {
    st1 := b.SetMatrix(kind, m);
    st2 := b.GetMatrix(kind, out);
  }

  /** set_bg_color followed by get_bg_color reads back the colour stored and
      changes nothing else. */
  method ColorRoundTrip(b: Backend, c: Cell<Color>, out: Cell<Color>)
    returns (st1: Status, st2: Status)
    requires b.Valid()
    modifies b`colBackground, out
    ensures b.Valid()
    ensures st1 == Ok && st2 == Ok
    ensures out.value == old(c.value)
    ensures b.Model() == old(b.Model()).(background := old(c.value))
  {
    st1 := b.SetBgColor(c);
    st2 := b.GetBgColor(out);
  }

  /** locate followed by get_location into four distinct cells reads back
      the four values stored verbatim, with no range check. */
  method LocationRoundTrip(b: Backend, left: SSize, top: SSize, width: SSize, height: SSize,
                           l: Cell<SSize>, t: Cell<SSize>, w: Cell<SSize>, h: Cell<SSize>)
    returns (st1: Status, st2: Status)
    requires b.Valid()
    requires l != t && l != w && l != h && t != w && t != h && w != h
    modifies b`viewLeft, b`viewTop, b`viewWidth, b`viewHeight, l, t, w, h
    ensures b.Valid()
    ensures st1 == Ok && st2 == Ok
    ensures l.value == left && t.value == top && w.value == width && h.value == height
    ensures b.Model() == old(b.Model()).(viewport := Viewport(left, top, width, height))
  {
    st1 := b.Locate(left, top, width, height);
    st2 := b.GetLocation(l, t, w, h);
  }
}

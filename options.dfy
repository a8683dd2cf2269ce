/** Toast options and their resolution to a complete configuration
    (the `PalmToast` constructor in src/toast.ts). */
module Options {

  /** An optional value; `None` stands for a property left out of the options object. */
  datatype Option<+T> = None | Some(value: T)

  /** The screen corner a toast is anchored to. */
  datatype ToastPosition = BottomRight | BottomLeft | TopRight | TopLeft

  /** The semantic kind of a toast, carried as the `toast-type` attribute. */
  datatype ToastType = Success | Error | Warning | Info | Default

  /** The style property a toast's stacking offset is written to. */
  datatype Side = Top | Bottom

  const DefaultPosition: ToastPosition := BottomRight
  const DefaultType: ToastType := Default
  const DefaultDuration: int := 3000

  /** The options object a caller passes; every field but the text is optional. */
  datatype ToastOptions = ToastOptions(
    heading: Option<string>,
    text: string,
    position: Option<ToastPosition>,
    toastType: Option<ToastType>,
    duration: Option<int>,
    dissmissable: Option<bool>,
    draggable: Option<bool>,
    showTimer: Option<bool>,
    pauseOnHover: Option<bool>)

  /** The configuration a toast keeps after construction. */
  datatype Config = Config(
    heading: Option<string>,
    text: string,
    position: ToastPosition,
    toastType: ToastType,
    duration: int,
    dissmissable: bool,
    draggable: bool,
    showTimer: bool,
    pauseOnHover: bool,
    positionModifier: Side)

  /** `opt ?? default`: the supplied value, or the default when the option is absent. */
  function OrDefault<T>(opt: Option<T>, default: T): T {
    match opt
    case Some(v) => v
    case None => default
  }

  /** True when `v` is what resolving `opt` against `default` must give. */
  predicate Resolved<T(==)>(opt: Option<T>, v: T, default: T) {
    (opt.None? ==> v == default) && (opt.Some? ==> v == opt.value)
  }

  /** Toasts in a bottom corner stack upwards from the bottom edge, the others downwards from the top. */
  function PositionModifier(p: ToastPosition): (s: Side)
    ensures s == Bottom <==> (p == BottomRight || p == BottomLeft)
    ensures s == Top <==> (p == TopRight || p == TopLeft)
  {
    match p
    case BottomRight | BottomLeft => Bottom
    case TopRight | TopLeft => Top
  }

  /** A configuration whose stacking side agrees with its corner. */
  predicate WellFormed(c: Config) {
    c.positionModifier == PositionModifier(c.position)
  }

  /** The constructor: each absent option falls back to its default, supplied ones are kept. */
  function Resolve(o: ToastOptions): (c: Config)
    ensures c.text == o.text && c.heading == o.heading
    ensures Resolved(o.position, c.position, BottomRight)
    ensures Resolved(o.toastType, c.toastType, Default)
    ensures Resolved(o.duration, c.duration, 3000)
    ensures Resolved(o.dissmissable, c.dissmissable, true)
    ensures Resolved(o.draggable, c.draggable, true)
    ensures Resolved(o.showTimer, c.showTimer, false)
    ensures Resolved(o.pauseOnHover, c.pauseOnHover, true)
    ensures WellFormed(c)
    ensures c.positionModifier == Bottom <==> c.position == BottomRight || c.position == BottomLeft
  {
    var position := OrDefault(o.position, DefaultPosition);
    Config(
      o.heading,
      o.text,
      position,
      OrDefault(o.toastType, DefaultType),
      OrDefault(o.duration, DefaultDuration),
      OrDefault(o.dissmissable, true),
      OrDefault(o.draggable, true),
      OrDefault(o.showTimer, false),
      OrDefault(o.pauseOnHover, true),
      PositionModifier(position))
  }

  /** The options object that spells out every field of `c`. */
  function Explicit(c: Config): (o: ToastOptions)
    ensures o.text == c.text
  {
    ToastOptions(c.heading, c.text, Some(c.position), Some(c.toastType), Some(c.duration),
                 Some(c.dissmissable), Some(c.draggable), Some(c.showTimer), Some(c.pauseOnHover))
  }

  /** Resolution is idempotent: spelling out a resolved configuration and resolving it again gives it back. */
  lemma {:induction false} ResolveExplicit(o: ToastOptions)
    ensures Resolve(Explicit(Resolve(o))) == Resolve(o)
  {
  }
}

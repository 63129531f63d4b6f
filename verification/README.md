# Lottie miscellaneous utilities, modelled in Dafny

This project models the sequential logic of the Lottie animation control's
`MiscUtils` helper class (Windows Community Toolkit):

- **Path reconstruction** (`path_builder.dfy`, module `PathBuilder`). One evaluated
  frame of a shape (an initial point, an ordered list of cubic curve vertices and
  a closed flag) is replayed into a caller-owned path sink. The sink is a class
  whose only state is the sequence of operations it has been sent (`MoveTo`,
  `LineTo`, `CubicTo`, `Close`; `Reset` empties it). `GetPathFromData` is an
  imperative method with a loop that tracks the running current point. It is
  proved to leave the sink holding exactly `PathOps(shape)`, a specification
  function. Lemmas then establish the promised shape of that sequence: its length,
  the single leading `MoveTo`, the line-versus-cubic choice for each curve by
  exact point equality, and the trailing `Close`.
- **Floor division and modulo** (`floor_arith.dfy`, module `FloorArith`). C#'s
  truncating `/` and `%` are defined explicitly (Dafny's own operators are
  Euclidean). `FloorDiv` adjusts the truncated quotient exactly as the toolkit
  does, and `FloorMod` is derived from it. `FloorDiv` brackets the dividend between
  consecutive multiples of the divisor, and it is the only integer that does.
  `FloorMod` lies in `[0, y)` or `(y, 0]`, and with the floor quotient it is the only
  pair that completes the division identity there. For a positive divisor both
  equal Dafny's `/` and `%`. For a negative divisor, `FloorDiv` equals `/` on the
  negated operands, and `FloorMod` equals the negation of `%` on the negated
  operands.
- **Range helpers** (`ranges.dfy`, module `Ranges`). `Clamp` is `Max(min, Min(max, n))`
  and `Contains` is an inclusive range test, both over `real`.
- **Key-path accumulation** (`key_paths.dfy`, module `KeyPaths`). `ResolveKeyPath`
  appends one resolved key path to a caller-owned list when the pattern fully
  resolves to the content's name at the given depth, and otherwise does nothing.
  The KeyPath class's matching, `AddKey` and `Resolve`, and the content's `Name`,
  come in as given functions. Being functions, they are assumed pure and
  deterministic: `Name` returns the same string each time it is read, and `AddKey`
  and `Resolve` do not change the key path they are called on. Nothing else is
  assumed about them. A specification function `Walk` describes several
  resolutions in a row. A lemma shows that such a series appends exactly the
  entries of the matching nodes, in visiting order, after the earlier entries.

Points are pairs of `real` compared by exact equality. Integers are unbounded.

## Model

| member | source | states |
|---|---|---|
| `PathBuilder.GetPathFromData` | Microsoft.Toolkit.Uwp.UI.Controls.Lottie/Utils/MiscUtils.cs:14-44 | after the call the sink holds exactly `PathOps(shape)`, whatever it held before: reset, one move to the initial point, one op per curve from the running current point, then a close if the shape is closed |
| `PathBuilder.BuildTwice` | Microsoft.Toolkit.Uwp.UI.Controls.Lottie/Utils/MiscUtils.cs:16-18 | building the same shape twice into one sink leaves the same ops as building it once, because the reset discards earlier contents |
| `PathBuilder.CurveOps` | Microsoft.Toolkit.Uwp.UI.Controls.Lottie/Utils/MiscUtils.cs:20-38 | the curve loop emits exactly one op per curve, and none of them is a move or a close |
| `PathBuilder.CurveOpsAt` | Microsoft.Toolkit.Uwp.UI.Controls.Lottie/Utils/MiscUtils.cs:19-37 | the op for curve `i` is decided from the current point before it: the start point for the first curve, the previous curve's vertex afterwards |
| `PathBuilder.PathOpsLength` | Microsoft.Toolkit.Uwp.UI.Controls.Lottie/Utils/MiscUtils.cs:16-43 | the sink ends with `1 + |curves| + (closed ? 1 : 0)` ops |
| `PathBuilder.CurveOpInPath` | Microsoft.Toolkit.Uwp.UI.Controls.Lottie/Utils/MiscUtils.cs:27-34 | op `i+1` is `LineTo(vertex_i)` when control point 1 equals the point before curve `i` and control point 2 equals its vertex, and `CubicTo(cp1, cp2, vertex)` in every other case, with no tolerance; curve ops follow the order of the curves |
| `PathBuilder.SingleMoveToFirst` | Microsoft.Toolkit.Uwp.UI.Controls.Lottie/Utils/MiscUtils.cs:16-20 | the first op is `MoveTo(initialPoint)` and no later op is a move |
| `PathBuilder.CloseOnlyLast` | Microsoft.Toolkit.Uwp.UI.Controls.Lottie/Utils/MiscUtils.cs:40-43 | a close appears at position `k` exactly when the shape is closed and `k` is the last position |
| `PathBuilder.EmptyShape` | Microsoft.Toolkit.Uwp.UI.Controls.Lottie/Utils/MiscUtils.cs:16-43 | a shape without curves yields `[MoveTo]`, or `[MoveTo, Close]` when closed |
| `FloorArith.TruncDiv` | Microsoft.Toolkit.Uwp.UI.Controls.Lottie/Utils/MiscUtils.cs:73 | C#'s `x / y`: the magnitude of the quotient is the largest whose multiple of `|y|` does not exceed `|x|`, and a non-zero quotient is negative exactly when the operand signs differ (rounding toward zero) |
| `FloorArith.TruncRem` | Microsoft.Toolkit.Uwp.UI.Controls.Lottie/Utils/MiscUtils.cs:75 | C#'s `x % y`: `x == y * (x / y) + x % y`, smaller in magnitude than `y`, and zero or signed like `x` |
| `FloorArith.FloorDiv` | Microsoft.Toolkit.Uwp.UI.Controls.Lottie/Utils/MiscUtils.cs:71-83 | for `y > 0`, `y*r <= x < y*(r+1)`; for `y < 0`, `y*(r+1) < x <= y*r` (the floor of `x/y`) |
| `FloorArith.FloorMod` | Microsoft.Toolkit.Uwp.UI.Controls.Lottie/Utils/MiscUtils.cs:66-69 | the result lies in `[0, y)` for positive `y` and in `(y, 0]` for negative `y`: zero or signed like `y`, smaller in magnitude than `y` |
| `FloorArith.FloorModOfReals` | Microsoft.Toolkit.Uwp.UI.Controls.Lottie/Utils/MiscUtils.cs:61-64 | both operands are truncated toward zero and reduced as integers; the result lies between zero and the truncated divisor |
| `FloorArith.TruncateToInt` | Microsoft.Toolkit.Uwp.UI.Controls.Lottie/Utils/MiscUtils.cs:63 | the `(int)` cast drops the fraction toward zero: the magnitude is the largest integer not above the operand's magnitude, with the operand's sign |
| `FloorArith.FloorModUnique` | Microsoft.Toolkit.Uwp.UI.Controls.Lottie/Utils/MiscUtils.cs:66-83 | any quotient and remainder with `x == y*q + m` and `m` in `[0, y)` (or `(y, 0]` for negative `y`) are `FloorDiv(x, y)` and `FloorMod(x, y)` |
| `FloorArith.DivisionIdentity` | Microsoft.Toolkit.Uwp.UI.Controls.Lottie/Utils/MiscUtils.cs:66-69 | `x == y * FloorDiv(x, y) + FloorMod(x, y)` |
| `FloorArith.FloorDivUnique` | Microsoft.Toolkit.Uwp.UI.Controls.Lottie/Utils/MiscUtils.cs:71-83 | any integer that brackets `x` the way the floor quotient does is `FloorDiv(x, y)` |
| `FloorArith.FloorDivIsMathematicalFloor` | Microsoft.Toolkit.Uwp.UI.Controls.Lottie/Utils/MiscUtils.cs:71-83 | `FloorDiv` equals Euclidean division for positive `y`, and Euclidean division of the negated operands for negative `y` |
| `FloorArith.FloorModIsMathematicalMod` | Microsoft.Toolkit.Uwp.UI.Controls.Lottie/Utils/MiscUtils.cs:66-69 | `FloorMod` equals the Euclidean remainder for positive `y`, and its negation on negated operands for negative `y` |
| `FloorArith.FloorDivAdjustsTruncation` | Microsoft.Toolkit.Uwp.UI.Controls.Lottie/Utils/MiscUtils.cs:77-80 | spells out the adjustment in both directions: the floor quotient is one below the truncated one exactly when the signs differ and the truncated remainder is non-zero, and equals it otherwise (it follows directly from the definition; the floor property itself is `FloorDiv`'s contract) |
| `FloorArith.FloorModExample` | Microsoft.Toolkit.Uwp.UI.Controls.Lottie/Utils/MiscUtils.cs:66-69 | `FloorMod(-1, 4) == 3` and `FloorMod(1, -4) == -3`, where the truncating remainder gives `-1` |
| `Ranges.Clamp` | Microsoft.Toolkit.Uwp.UI.Controls.Lottie/Utils/MiscUtils.cs:85-93 | returns `n` when `min <= n <= max`, `min` when `n < min`, `max` when `n > max` (for `min <= max`), and always lands in `[min, max]` when that range is non-empty |
| `Ranges.Contains` | Microsoft.Toolkit.Uwp.UI.Controls.Lottie/Utils/MiscUtils.cs:95-98 | a number is contained exactly when the range is non-empty and clamping to it leaves the number unchanged; an empty range contains nothing |
| `Ranges.ClampIsContained` | Microsoft.Toolkit.Uwp.UI.Controls.Lottie/Utils/MiscUtils.cs:85-98 | for `min <= max`, `Contains(Clamp(n, min, max), min, max)` |
| `Ranges.ClampIdempotent` | Microsoft.Toolkit.Uwp.UI.Controls.Lottie/Utils/MiscUtils.cs:85-93 | clamping an already clamped value changes nothing |
| `Ranges.ClampMonotone` | Microsoft.Toolkit.Uwp.UI.Controls.Lottie/Utils/MiscUtils.cs:85-93 | clamping preserves the order of its inputs |
| `Ranges.ContainsBounds` | Microsoft.Toolkit.Uwp.UI.Controls.Lottie/Utils/MiscUtils.cs:95-98 | both ends of a non-empty range are contained |
| `KeyPaths.ResolveKeyPath` | Microsoft.Toolkit.Uwp.UI.Controls.Lottie/Utils/MiscUtils.cs:113-120 | on a full match exactly one entry, `Resolve(AddKey(partial, content.Name), content)`, is appended at the end; otherwise the list is unchanged; existing entries are kept in place |
| `KeyPaths.WalkAppendsMatches` | Microsoft.Toolkit.Uwp.UI.Controls.Lottie/Utils/MiscUtils.cs:113-120 | over any series of resolutions, some matching and some not, the list becomes the earlier entries followed by the entries of exactly the matching nodes, in visiting order |
| `KeyPaths.WalkExtends` | Microsoft.Toolkit.Uwp.UI.Controls.Lottie/Utils/MiscUtils.cs:113-120 | over any series of resolutions the earlier entries stay a prefix, and each resolution adds at most one entry |
| `KeyPaths.WalkKeepsVisitOrder` | Microsoft.Toolkit.Uwp.UI.Controls.Lottie/Utils/MiscUtils.cs:113-120 | when every visited node matches, their entries are appended in visiting order, one each |
| `KeyPaths.WalkWithoutMatches` | Microsoft.Toolkit.Uwp.UI.Controls.Lottie/Utils/MiscUtils.cs:115-119 | when no visited node matches, the list is left as it was |

## Left out

- The three `Lerp` overloads: they are single- and double-precision floating-point arithmetic, and the integer overload truncates a float product. Their results depend on IEEE rounding, which this model does not represent.
- NaN and signed zero: points, `Clamp` and `Contains` are over `real`. The IEEE behaviour of `Math.Min`/`Math.Max`, of float comparison and of `Vector2.Equals` on NaN or `-0.0` is not modelled.
- Ranges.Clamp: says nothing about the result when `min > max` and `number >= min`; the code then returns `min`, but callers are not meant to rely on it.
- The KeyPath class's own logic (`FullyResolvesTo`, `AddKey`, `Resolve`, including the `*` and `**` segment matching) is not part of this model. These operations, and the content's `Name`, are function parameters. So they are assumed pure and deterministic, and nothing more is assumed about them.
- The walk over the content tree that calls `ResolveKeyPath` at each node is external. It is described only by the specification function `KeyPaths.Walk`, not as a method.
- The real `Path` class and its drawing backend are not modelled; the sink here only records operations.
- 32-bit integer overflow: integers are unbounded, so `FloorDiv(int.MinValue, -1)`, which throws in C#, is not modelled. Wrap-around in `y * FloorDiv(x, y)` cannot change the result, because the true result always fits.
- The toolkit's sign test `(x ^ y) >= 0` is modelled as "both negative or both non-negative". On two's-complement integers, that is exactly when the two sign bits agree.
- FloorArith.FloorDiv, FloorArith.FloorMod: require a non-zero divisor; C# throws `DivideByZeroException` there, and exceptions are not modelled.
- FloorArith.FloorModOfReals: requires the truncated divisor to be non-zero, for the same reason. It also does not model casts of NaN, infinities or out-of-range values.

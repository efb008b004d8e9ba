# broken-glass in Dafny

broken-glass is two small C++ programs. The first is a dispersion simulator: a fan of
fifty coloured rays leaves a light source. Each ray is refracted by glass prisms whose
index depends on wavelength (Cauchy's law). It is bent by Snell's law and stopped by
total internal reflection (TIR). The second is a console "cryptor". It XORs a text line
with `0xAA`, prints the result as hex byte tokens, and decodes such a hex line back.

This project models the logic of both and proves what that logic promises. Floats are
modelled as `real`.

- **`VectorOps`** (`src/Utils/VectorOps.hpp`) covers these vector helpers:
  - `len`, and `norm` with its `(1, 0)` fallback;
  - `dot`;
  - `rayLineIntersect`, a Cramer's-rule ray/segment test. It is a function returning
    a `Crossing`: whether the edge is crossed, with the `hit` and `param` out-values.
    When there is no crossing, the values passed in come back unchanged.
- **`Physics`** (`src/Utils/Physics.hpp`) covers:
  - `getN`, the Cauchy index;
  - `refractDir`, vector Snell refraction that returns the zero vector on TIR.
- **`Scene`** (`src/Scene/Ray.hpp`, `src/Scene/Prism.hpp`) holds the data:
  - `Ray` with `valid` false by default;
  - a prism given by its centre and its three vertices.
- **`Spectrum`** (`src/main.cpp:27-54`) has the fifty base wavelengths and the
  wavelength-to-colour table. The setup loop is the method `BaseRays`, which fills an
  array.
- **`NearestHit`** (`src/main.cpp:80-113`) is the search for the nearest edge hit in
  one bounce.
  - The four locals `closestDist`, `closestHit`, `closestNormal` and `hitFound` are the
    datatype `Closest`.
  - The two loops over prisms and edges are the methods `FindNearest`, `ScanPrism` and
    `ConsiderEdge`. `FindNearest` is proved equal to `Nearest` (the function
    `PrismLoop`), `ScanPrism` to `EdgeLoop`, and `ConsiderEdge` to one step `Consider`
    on what the edge contributes (`EdgeHitOf`).
  - Those functions are proved equal to one scan in enumeration order (`Scan`). The
    properties are proved about that scan.
- **`Tracer`** (`src/main.cpp:71-148`) is the bounce loop.
  - The function `Run` states what bounces `b..9` append and how the loop ends:
    escape, TIR or exhausted.
  - The method `TraceRay` runs the `for` loop over bounces with the early exits of the
    source. It is proved to build exactly `Traced(ray, …)`. `Bounce` is one pass of the
    loop body.
  - `TraceAll` updates the array of rays in place.
- **`Cryptor`** (`src/cryptor.cpp`) covers:
  - `strlen` (a `while` loop over an array);
  - `encrypt`/`decrypt` (in-place XOR loops);
  - the hex-token decode loop of the `'d'` command, as the method `DecodeLine` with
    its helpers on a 128-byte buffer.

  Each is proved against a specification function: `NulIndex`, `Crypt` and
  `DecodeFrom`. The round trip is proved end to end: encrypt, print in hex, decode.

Square roots are not computed. Every member that needs `std::sqrt` takes a function
`sqrt: real -> real` satisfying `IsSqrt`: for `x >= 0`, `sqrt(x)` is non-negative and
squares to `x`.

## Model

| member | source | states |
|---|---|---|
| `VectorOps.Dot` | src/Utils/VectorOps.hpp:15-17 | defines `dot(a, b)` as the sum of the coordinate products `a.x*b.x + a.y*b.y` |
| `VectorOps.DotSymmetric` | src/Utils/VectorOps.hpp:15-17 | `dot(a, b) == dot(b, a)`: the sum of coordinate products is symmetric |
| `VectorOps.Len` | src/Utils/VectorOps.hpp:8 | `len(v)` is the non-negative number whose square is `dot(v, v)` |
| `VectorOps.LenOfUnit` | src/Utils/VectorOps.hpp:8 | a unit vector has length exactly 1 |
| `VectorOps.UnitDotBound` | src/Utils/Physics.hpp:12 | the dot product of two unit vectors lies in `[-1, 1]`, so `cosI` is a cosine when both vectors are unit |
| `VectorOps.Norm` | src/Utils/VectorOps.hpp:10-13 | when `len(v) <= 0.001` the result is exactly `(1, 0)`; the boundary value `0.001` takes the fallback |
| `VectorOps.NormIsUnit` | src/Utils/VectorOps.hpp:10-13 | `norm(v)` is a unit vector in both branches |
| `VectorOps.NormAlong` | src/Utils/VectorOps.hpp:12 | above the threshold `norm(v)` scaled by `len(v)` is `v`, i.e. the result is `v / len(v)` |
| `VectorOps.NormHasUnitLength` | src/Utils/VectorOps.hpp:8-13 | `len(norm(v)) == 1` for every `v` |
| `VectorOps.CramerSolves` | src/Utils/VectorOps.hpp:27-29 | for a non-zero `denom`, the computed `t` and `s` solve `origin + dir*t == p1 + edge*s` |
| `VectorOps.CramerUnique` | src/Utils/VectorOps.hpp:27-29 | any solution `(t, s)` of that system is the computed one |
| `VectorOps.RayLineIntersect` | src/Utils/VectorOps.hpp:19-37 | `abs(denom) < 0.001` gives false; false leaves `hit` and `param` unchanged; true gives `0 <= param <= 1`, `hit == p1 + edge*param`, `t > 0.01` and `hit == origin + dir*t` |
| `VectorOps.RayLineIntersectComplete` | src/Utils/VectorOps.hpp:24-34 | conversely, a crossing with `abs(denom) >= 0.001`, `t > 0.01` and `0 <= s <= 1` is reported, with `param == s` and the crossing point as `hit` |
| `Physics.GetN` | src/Utils/Physics.hpp:5-8 | for `wl != 0` the index exceeds 1.5046 |
| `Physics.GetNClosedForm` | src/Utils/Physics.hpp:6-7 | `getN(wl) == 1.5046 + 12000 / wl^2`, the Cauchy law with `l = wl / 1000` |
| `Physics.GetNDecreasing` | src/Utils/Physics.hpp:7 | for `0 < wl1 < wl2`, `getN(wl1) > getN(wl2)`: shorter wavelengths bend more |
| `Physics.RefractDir` | src/Utils/Physics.hpp:10-19 | the TIR branch (`sinT2 > 1`) returns the zero vector. Otherwise the tangential part obeys Snell's law (`cross(n, r) == (n1/n2) * cross(n, i)`), and for a unit normal the normal part is `-cosT <= 0` |
| `Physics.NoTirIntoDenser` | src/Utils/Physics.hpp:12-15 | for `0 < n1 <= n2` and `-1 <= cosI <= 1` the TIR branch is never taken |
| `Physics.SameIndexPassesStraight` | src/Utils/Physics.hpp:12-18 | with `n1 == n2` and `dot(incident, normal) <= 0` the incident direction comes back unchanged |
| `Physics.RefractUnit` | src/Utils/Physics.hpp:17-18 | for a unit incident direction and normal, the refracted direction is a unit vector |
| `Physics.RefractZeroIffTir` | src/Utils/Physics.hpp:14-18 | for unit vectors the result is the zero vector exactly in the TIR branch, and it is shorter than the tracer's `0.1` exactly then |
| `Spectrum.BaseWavelength` | src/main.cpp:30-33 | every base wavelength lies in `[400, 700]`; ray 0 is at 700 nm and ray 49 at 400 nm |
| `Spectrum.BaseWavelengthsDescend` | src/main.cpp:31-32 | the wavelengths strictly descend along the beam |
| `Spectrum.RedRays` | src/main.cpp:32-37 | ray `i` is in the pure red band (`wl >= 620`) exactly when `i <= 13` |
| `Spectrum.ColorFor` | src/main.cpp:35-53 | `wl >= 620` maps to (255,0,0) and `570 <= wl < 590` to (255,255,0). The ramps keep their fixed channels: orange `(255, <=165, 0)`, green `(_, 255, 0)`, blue `(0, _, 255)`, violet `(<=148, 0, >=211)` |
| `Spectrum.Truncate` | src/main.cpp:40-52 | the `(uint8_t)` cast of a non-negative value below a bound is its floor, within the bound |
| `Spectrum.OrangeRamp` | src/main.cpp:38-40 | in the orange band green falls as the wavelength rises |
| `Spectrum.GreenRamp` | src/main.cpp:43-45 | in the green band red rises with the wavelength |
| `Spectrum.CyanRamp` | src/main.cpp:46-48 | in the blue band green rises with the wavelength |
| `Spectrum.VioletRamp` | src/main.cpp:49-52 | in the violet band red falls and blue rises with the wavelength |
| `Spectrum.BaseRay` | src/main.cpp:29-54 | base ray `i` has no points, is not valid and carries the `i`-th base wavelength and that wavelength's colour |
| `Spectrum.BaseRays` | src/main.cpp:29-54 | the setup loop fills all fifty rays with exactly those base rays |
| `NearestHit.FacingAway` | src/main.cpp:103-106 | the flip keeps or negates the normal, and the result satisfies `dot(normal, mid - center) >= 0` |
| `NearestHit.OutwardNormal` | src/main.cpp:100-108 | the stored normal is `±norm(-edge.y, edge.x)` and faces away from the prism centre: `dot >= 0` |
| `NearestHit.NormalIsUnit` | src/main.cpp:100-101 | the stored normal is a unit vector |
| `NearestHit.NormalPerpendicular` | src/main.cpp:100-106 | for an edge longer than 0.001 the stored normal is perpendicular to the edge |
| `NearestHit.EdgeHitOf` | src/main.cpp:92-108 | defines what edge `i` contributes: nothing when `rayLineIntersect` misses or the crossing is nearer than `1.0`, otherwise its distance, hit point and outward normal |
| `NearestHit.EdgeHitOfAccepted` | src/main.cpp:92-95 | an edge contributes a hit exactly when it is crossed at distance `>= 1.0`, and then at the distance `len(hit - currPos)` |
| `NearestHit.Candidate` | src/main.cpp:87-92 | defines the call `rayLineIntersect(currPos, currDir, verts[i], verts[(i + 1) % 3], hit, param)` for edge `i`, with `hit` at its default (0, 0) |
| `NearestHit.EdgeLoop` | src/main.cpp:86-111 | defines the closest-hit locals after the edge loop has looked at the first `i` edges of prism `j`; `EdgeLoopScans` ties it to the scan in enumeration order |
| `NearestHit.PrismLoop` | src/main.cpp:85-113 | defines the closest-hit locals after the prism loop has looked at the first `j` prisms; `PrismLoopScans` ties it to one flat scan |
| `NearestHit.Consider` | src/main.cpp:96-110 | defines the edge loop's body: a contributed hit strictly nearer than `closestDist` replaces the closest-hit locals, anything else leaves them |
| `NearestHit.Nearest` | src/main.cpp:80-113 | defines the closest-hit locals after both loops, starting from `hitFound == false` and `closestDist == 100000` |
| `NearestHit.Scan` | src/main.cpp:85-113 | defines the closest-hit locals after the first `e` edges in the loops' enumeration order (edge `e % 3` of prism `e / 3`) |
| `NearestHit.EdgeLoopScans` | src/main.cpp:87-112 | the edge loop over prism `j` continues the scan of all edges before it |
| `NearestHit.PrismLoopScans` | src/main.cpp:85-113 | the two nested loops equal one scan of the edges in enumeration order |
| `NearestHit.ScanIsMinimal` | src/main.cpp:95-98 | the kept distance is at most 100000 and at most that of every accepted edge seen, and a kept hit is below 100000 |
| `NearestHit.ScanKeepsFirstNearest` | src/main.cpp:96-98 | a hit is kept exactly when some edge replaced the locals (`Chosen >= 0`). The kept hit is that edge's, and every earlier accepted edge is strictly further away (a tie goes to the first edge, by the strict `<`) |
| `NearestHit.NearestIsFirstNearest` | src/main.cpp:80-113 | for a scene, the kept hit is that of the edge `Chosen` picks, and every accepted edge enumerated before it is strictly further away |
| `NearestHit.NearestHitIff` | src/main.cpp:80-115 | `hitFound` ends true exactly when some edge is accepted at a distance below `100000`; a crossing `100000` or more away is never kept |
| `NearestHit.NearestIsMinimal` | src/main.cpp:92-98 | no accepted edge of the scene is nearer than the kept hit |
| `NearestHit.NearestInRange` | src/main.cpp:80-109 | a kept hit is at distance in `[1, 100000)` and its normal is a unit vector |
| `NearestHit.NearestInEmptyScene` | src/main.cpp:85 | with no prism nothing is hit |
| `NearestHit.ConsiderEdge` | src/main.cpp:88-111 | one edge pass replaces the kept hit exactly by a strictly nearer accepted hit |
| `NearestHit.ScanPrism` | src/main.cpp:86-112 | the edge loop over one prism gives `EdgeLoop` of that prism |
| `NearestHit.FindNearest` | src/main.cpp:80-113 | the prism loop leaves the closest-hit locals equal to `Nearest` of the scene |
| `Tracer.Boundary` | src/main.cpp:124-139 | `dot(currDir, normal) > 0` selects `(getN, 1, -normal)`, otherwise `(1, getN, normal)`; either way `dot(currDir, nVec) <= 0` |
| `Tracer.EnteringNeverTir` | src/main.cpp:134-141 | a unit ray entering glass (`dot <= 0`) is refracted from air and never meets TIR |
| `Tracer.Run` | src/main.cpp:79-147 | defines what bounces `b..9` append and how the loop ends: the escape point `pos + dir*2000` when nothing is hit, otherwise the hit, then a stop on `len(newDir) < 0.1` or the next bounce from `hit + norm(newDir)*0.1` |
| `Tracer.Extend` | src/main.cpp:116-121 | defines the ray after the loop's `push_back`s: the appended points at the end, and `valid` set when the loop escaped |
| `Tracer.Traced` | src/main.cpp:72-148 | defines the traced ray: points cleared to `[srcPos]`, then what the loop from bounce 0 appends |
| `Tracer.RunLength` | src/main.cpp:77-147 | from bounce `b` at most `10 - b` points are appended and at least one; a ray that uses up the bounces appends exactly `10 - b` |
| `Tracer.RunEnds` | src/main.cpp:115-143 | an escape happens where nothing is hit, and its last point is `pos + dir*2000`; a TIR stop happens at a hit, and its last point is that hit |
| `Tracer.ReflectionOnlyOnExit` | src/main.cpp:129-145 | the direction stays a unit vector; TIR only happens when the ray leaves glass (`dot(dir, normal) > 0`) |
| `Tracer.TracedShape` | src/main.cpp:72-147 | a traced ray starts at the source and has 2 to 11 points; colour and wavelength are unchanged |
| `Tracer.TracedValidIffEscaped` | src/main.cpp:115-143 | a ray not yet valid becomes valid exactly when it leaves through the no-hit branch, whose last point is the escape point; TIR and the bounce limit keep it invalid |
| `Tracer.TracedInEmptyScene` | src/main.cpp:85-118 | with no prisms every ray is valid with exactly the points `srcPos` and `srcPos + srcDir*2000` |
| `Tracer.Bounce` | src/main.cpp:80-147 | one pass appends what `Run` appends at bounce `b`. It either stops with the whole path or hands over the position and direction from which `Run` continues |
| `Tracer.TraceRay` | src/main.cpp:72-147 | the bounce loop builds exactly `Traced(ray, …)` |
| `Tracer.TraceAll` | src/main.cpp:71-148 | every ray of the array is replaced by its traced version |
| `Cryptor.Xor` | src/cryptor.cpp:14 | defines bitwise `^` on naturals, one bit at a time from the lowest |
| `Cryptor.XorKey` | src/cryptor.cpp:14 | `b ^ 0xAA` on a byte, which stays a byte |
| `Cryptor.XorLow` | src/cryptor.cpp:60 | the low `n` bits of `a ^ b` are the `^` of the low `n` bits, so truncating before or after `^` is the same |
| `Cryptor.XorCancel` | src/cryptor.cpp:14 | XOR with the same key twice is the identity |
| `Cryptor.XorZeroIff` | src/cryptor.cpp:14 | `a ^ b == 0` exactly when `a == b` |
| `Cryptor.XorKeyTwice` | src/cryptor.cpp:14 | `(b ^ 0xAA) ^ 0xAA == b` on bytes |
| `Cryptor.CipherNulIff` | src/cryptor.cpp:14 | an encrypted byte is NUL exactly when the plaintext byte was `0xAA` |
| `Cryptor.NulIndex` | src/cryptor.cpp:4-10 | the index of a NUL with no NUL before it |
| `Cryptor.NulIndexUnique` | src/cryptor.cpp:4-10 | that index is the only such one |
| `Cryptor.Strlen` | src/cryptor.cpp:4-10 | the loop returns the index of the first NUL |
| `Cryptor.Crypt` | src/cryptor.cpp:12-16 | defines the effect of the encrypt/decrypt loop: byte `i` XORed with `0xAA` when `i < length`, unchanged otherwise; `CryptInvolution` and `EncryptThenDecrypt` state its promises |
| `Cryptor.CryptInvolution` | src/cryptor.cpp:12-22 | applying the transform twice over the same length restores the bytes |
| `Cryptor.Encrypt` | src/cryptor.cpp:12-16 | the buffer becomes `Crypt(old buffer, length)`; bytes from `length` on are unchanged |
| `Cryptor.Decrypt` | src/cryptor.cpp:18-22 | the same transform as `encrypt` |
| `Cryptor.EncryptThenDecrypt` | src/cryptor.cpp:12-22 | `decrypt` after `encrypt` over the same length restores the buffer |
| `Cryptor.HexByte` | src/cryptor.cpp:39 | a printed byte is a token of at most two digits that scans back to the byte |
| `Cryptor.Printed` | src/cryptor.cpp:38-40 | one token per ciphertext byte, each printing that byte |
| `Cryptor.HexLine` | src/cryptor.cpp:38-40 | defines the printed line: each byte's token followed by one space |
| `Cryptor.SkipSpaces` | src/cryptor.cpp:54-55 | stops at a non-space (or the end), never before `p` |
| `Cryptor.SkipSpacesFirst` | src/cryptor.cpp:54-55 | every byte `SkipSpaces` passes over is a space, so it stops at the first non-space |
| `Cryptor.SkipToken` | src/cryptor.cpp:62-63 | stops at a space or NUL (or the end), never before `p` |
| `Cryptor.SkipTokenFirst` | src/cryptor.cpp:62-63 | every byte `SkipToken` passes over is neither a space nor NUL, so it stops at the first one that ends the token |
| `Cryptor.HexEnd` | src/cryptor.cpp:59 | the end of the run of hex digits `%x` reads |
| `Cryptor.ScanHex` | src/cryptor.cpp:59 | defines `sscanf(ptr, "%x", &value)` on a token: it converts exactly when the token starts with a hex digit, with the value of the leading digit run; `DigitRunEnds` and `DecodeToken` state its promises |
| `Cryptor.Unmask` | src/cryptor.cpp:60 | defines `(char)(value ^ 0xAA)` as the low byte of `value`, XORed with the key |
| `Cryptor.UnmaskIsLowByte` | src/cryptor.cpp:60 | that is `(value ^ 0xAA) mod 256`, the low byte of the full result |
| `Cryptor.Emitted` | src/cryptor.cpp:59-61 | a token yields one byte exactly when the scan converts, and nothing otherwise |
| `Cryptor.EmittedValue` | src/cryptor.cpp:59-60 | a converted token yields the byte `(value ^ 0xAA) mod 256` |
| `Cryptor.DecodeFrom` | src/cryptor.cpp:53-64 | defines what the loop appends from `ptr == p` on: nothing at the NUL; otherwise after the spaces, the next token's bytes and then what follows the token |
| `Cryptor.DecodeAtSpace` | src/cryptor.cpp:54-55 | a leading space does not change what the rest of the line decodes to |
| `Cryptor.SkipSpacesAt` | src/cryptor.cpp:54-55 | the pointer loop stops where `SkipSpaces` says, before the terminator |
| `Cryptor.SkipTokenAt` | src/cryptor.cpp:62-63 | the pointer loop stops where `SkipToken` says, before the terminator |
| `Cryptor.DecodeRound` | src/cryptor.cpp:53-64 | one outer iteration that reaches a token extends the decoded prefix by the token's byte, moves `ptr` strictly forward, and keeps the bytes decoded at most half the distance covered |
| `Cryptor.RoundLength` | src/cryptor.cpp:53-64 | a byte needs a token and each later token a space before it, so `2*resultLen <= ptr + 1` is kept |
| `Cryptor.ScanInto` | src/cryptor.cpp:59-61 | `result` grows by exactly the token's byte, if any |
| `Cryptor.DecodeLine` | src/cryptor.cpp:49-65 | the loop terminates and outputs `DecodeFrom(line)`, at most 64 bytes, so the writes and the terminator stay inside `result` |
| `Cryptor.DecodeToken` | src/cryptor.cpp:53-64 | a token printing byte `b` followed by a space decodes to `b ^ 0xAA`, and decoding goes on after the space |
| `Cryptor.DecodeJoined` | src/cryptor.cpp:53-64 | decoding space-joined tokens that print the bytes `c`, up to the terminator, gives `c` XORed with the key |
| `Cryptor.HexLineFits` | src/cryptor.cpp:38-47 | a ciphertext of at most 42 bytes prints as at most 126 characters, which `getline(data, 128)` takes whole |
| `Cryptor.DecodeHexLine` | src/cryptor.cpp:38-64 | decoding the printed line of a ciphertext gives the ciphertext XORed with the key |
| `Cryptor.EncryptPrintDecode` | src/cryptor.cpp:36-65 | encrypting, printing in hex and decoding that line gives the plaintext back, when the line fits in 127 characters |

## Left out

- Float rounding. Every `float` is a `real`, and thresholds such as `0.001`, `0.01`, `0.1` and `1.0` are compared exactly.
- `std::sqrt` is a parameter with the `IsSqrt` property. `std::cos` and `std::sin` appear only in `Prism::getVertices` (src/Scene/Prism.hpp:15-23) and in the source direction, so neither is modelled: a prism is given by its three vertices in `getVertices` order, and `srcDir` is an input.
- SFML windows, events, rendering and the widget code of src/UI are not part of this model. Neither are the per-frame copy `rays = baseRays` and the light source and prism set-up (src/main.cpp:15-26, 56-69, 150 on).
- The cryptor's console menu, `std::cin`, `std::cout` and the `getline` call (src/cryptor.cpp:24-47, 67-73). `DecodeLine` takes the buffer `getline` leaves: 128 bytes containing a NUL.
- `Cryptor.ScanHex`: does not accept a sign or a `0x` prefix, does not skip the other whitespace `sscanf` skips (tab, carriage return and the like), and does not model `int` overflow. On those tokens the model's value can differ from `sscanf`'s.
- A `char` is its unsigned byte value; the sign of `char` changes neither `^ 0xAA` nor the `(char)` cast on the low byte, and printing goes through `(unsigned char)` anyway.
- `Physics.GetN`: requires `wl != 0`. At zero the C++ division gives infinity, which `real` cannot represent.
- `Physics.RefractDir`: requires `n2 != 0` for the same reason. The tracer only passes 1 or an index above 1.5046.
- `Spectrum.ColorFor`: requires `wl >= 400`, because the base wavelengths never go below 400. Below about 364 nm the violet formula drives the red channel above 255, and the `(uint8_t)` cast of that out-of-range float is undefined.
- `Spectrum.Truncate`: requires a value in `[0, bound]`. It models the cast only where the colour table uses it.
- `Cryptor.Strlen`: requires a NUL in the buffer; without one the C loop reads past the array.
- `Cryptor.DecodeLine`: the 128-byte `result` buffer is a local array, and the result is returned as its first `resultLen` bytes. Printing it is left out.
- `VectorOps.RayLineIntersect`: at the call site (src/main.cpp:90-91) `hit` starts at (0, 0) from `sf::Vector2f`'s default constructor, as in the model; the uninitialised `param` is modelled as `0`. Neither is read when the function returns false.

The flip at src/main.cpp:105 tests `< 0`, so a normal exactly perpendicular to `mid - center` is kept. The model therefore states `dot(normal, mid - center) >= 0`, not `> 0`.

# Slider-captcha and notification helpers of `utils/tools.py`, modelled in Dafny

`utils/tools.py` belongs to a bot that logs in to a web console. It solves the
console's shape and colour captchas, drags sliders the way a person would,
keeps the cookie records of forbidden users and sends notifications to
configured webhooks. This project models the decision logic of that file and
proves properties of the model:

- `wrappers.dfy` (`Wrappers`): the `Option` type. It stands for Python's `None` results.
- `dicts.dfy` (`Dicts`): a Python `dict` with string keys. It is a map plus the
  keys' insertion order. Assigning an existing key keeps its position.
- `geometry.dfy` (`Geometry`): pixel points. It models `sorted` with a key as a
  stable insertion sort, and holds `sort_rectangle_vertices` and `is_trapezoid`.
- `shape_locator.dfy` (`ShapeLocator`): the corner-count classification of
  contours and the first-match loops of `get_shape_location_by_type` and
  `get_shape_location_by_color`. Both receive the contours that OpenCV would
  produce, in OpenCV's order.
- `boxes.dfy` (`Boxes`): `get_zero_or_not` and `expand_coordinates`.
- `users.dfy` (`Users`): `filter_forbidden_users` and `get_forbidden_users_dict`.
- `notify.dfy` (`Notify`): `send_call_method` and `send_msg`. The sending
  object is the set of its method names. A run of `send_msg` is the trace of
  the sending calls it makes.
- `drag.dfy` (`Drag`): `human_like_mouse_move`, as the list of mouse moves it
  issues. Coordinates are exact reals.

The two locators return `(None, None)` when nothing is found. The model returns
`None` in that case, and `Some((x, y))` otherwise.

## Model

| member | source | states |
|---|---|---|
| Dicts.Empty | utils/tools.py:94 | `{}` has no keys and an empty iteration order. |
| Dicts.Dict.Set | utils/tools.py:99 | `d[k] = v` binds `k` to `v` and leaves every other key's value alone. A new key is appended to the iteration order; an existing key keeps its place. The dict invariant is preserved. |
| Geometry.WithKeyCons | utils/tools.py:181 | Proof step. The elements of a key in a list with a point in front are that point, when it has the key, followed by the key's elements in the rest. |
| Geometry.Insert | utils/tools.py:181 | The insertion step of the sort. Its result is a permutation of the input plus the inserted point. |
| Geometry.InsertSorted | utils/tools.py:181 | Inserting into a list sorted on the key gives a list sorted on the key. |
| Geometry.InsertWithKey | utils/tools.py:181 | Inserting a point puts it in front of the elements of its own key, and leaves every other key's elements unchanged. |
| Geometry.Sort | utils/tools.py:181 | `sorted(..., key=...)` returns a permutation of its input, of the same length. |
| Geometry.SortSorted | utils/tools.py:181 | The sorted list is ordered by the key. |
| Geometry.SortIsStable | utils/tools.py:181 | For every key value, the elements with that key keep their input order (Python's sort is stable). |
| Geometry.StableSortUnique | utils/tools.py:181 | Two key-sorted lists with the same per-key element order are equal. |
| Geometry.SortIsTheStableSort | utils/tools.py:181-185 | Any stable sort of the input equals the model's sort, so the model is the only possible result of `sorted`. |
| Geometry.SortedHeadIsLeast | utils/tools.py:181 | The first element of a key-sorted list has the least key. |
| Geometry.SortPair | utils/tools.py:184-185 | Sorting two points swaps them only when the second key is strictly smaller; equal keys keep their input order. |
| Geometry.SortRectangleVertices | utils/tools.py:176-187 | The result is a permutation of the four vertices. Both top vertices lie no lower than both bottom vertices. The top pair runs left to right, the bottom pair right to left: top-left, top-right, bottom-right, bottom-left. |
| Geometry.QuadPermutation | utils/tools.py:184-187 | Listing the two sorted pairs as top-left, top-right, bottom-right, bottom-left gives back the original four vertices. |
| Geometry.HalfMember | utils/tools.py:184-185 | Each point of a sorted pair is one of the two points that were sorted. |
| Geometry.AssembleQuad | utils/tools.py:181-187 | Sorting by y, then each half by x, then listing top-left, top-right, bottom-right, bottom-left gives the ordering properties above. |
| Geometry.SortRectangleVerticesIsStable | utils/tools.py:181-187 | Any choice of stable sorts for the three `sorted` calls yields the model's vertex order. |
| Geometry.Abs | utils/tools.py:196-197 | `abs(n)` is `n` or `-n`, and never negative. |
| Geometry.TrapezoidOfOrderedVertices | utils/tools.py:190-198 | On vertices ordered as `sort_rectangle_vertices` orders them, `is_trapezoid` holds exactly when the bottom edge is wider than the top edge. |
| Geometry.IsTrapezoid | utils/tools.py:190-198 | Definition: the top edge, vertex 0 to vertex 1, is horizontally narrower than the bottom edge, vertex 3 to vertex 2. Characterised by `Geometry.TrapezoidOfOrderedVertices`. |
| Geometry.WithKeyMembers | utils/tools.py:181 | The elements picked out for a key are elements of the list that carry that key. |
| Geometry.WithKeyOfMember | utils/tools.py:181 | Every element is picked out for its own key. |
| Geometry.InsertMembers | utils/tools.py:181 | The elements after insertion are the old ones plus the inserted point. |
| ShapeLocator.Classify | utils/tools.py:213-235 | A contour is: a triangle iff it has 3 corners; a square iff 4 with `w == h`; a trapezoid iff 4, `w != h` and `is_trapezoid` of its sorted corners; a rectangle iff 4, `w != h` and not a trapezoid; a hexagon iff 6; a circle iff 8; a star iff 20; unknown otherwise. |
| ShapeLocator.ClassifyByCountAlone | utils/tools.py:217-235 | Outside the quadrilateral branch, the class depends on the corner count only. A quadrilateral with a square bounding box is a square whatever its corners. |
| ShapeLocator.LabelInjective | utils/tools.py:218-235 | Distinct shapes have distinct labels, so comparing labels with the requested type compares shapes. |
| ShapeLocator.Label | utils/tools.py:217-235 | Definition: the shape name the source compares with the requested type. Characterised by `ShapeLocator.LabelInjective`. |
| ShapeLocator.Matches | utils/tools.py:237 | Definition: the contour's label equals the requested type. Characterised by `ShapeLocator.UnknownRequestNeverMatches` and `ShapeLocator.LocateByType`. |
| ShapeLocator.UnknownRequestNeverMatches | utils/tools.py:237 | A requested type that is no shape's label matches no contour. |
| ShapeLocator.FloorDiv2 | utils/tools.py:239 | `n // 2` is the floor of `n / 2`: `2q <= n < 2q + 2`. |
| ShapeLocator.Center | utils/tools.py:239 | The centre is `x + w // 2`, `y + h // 2`, with floor division. |
| ShapeLocator.LocateByType | utils/tools.py:201-243 | The result is absent exactly when no contour's label is the requested type. Otherwise it is the centre of the first contour, in contour order, whose label is the requested type. |
| ShapeLocator.Truncate | utils/tools.py:271-272 | `int(r)` truncates toward zero: the floor for non-negative `r`, the ceiling for negative `r`. |
| ShapeLocator.Qualifies | utils/tools.py:268-270 | Definition: area above 100 and a non-zero `m00`. Characterised by `ShapeLocator.LocateByColor`. |
| ShapeLocator.Centroid | utils/tools.py:271-272 | Definition: `int(m10 / m00)`, `int(m01 / m00)`. Its rounding is characterised by `ShapeLocator.Truncate`. |
| ShapeLocator.LocateByColor | utils/tools.py:266-275 | The result is absent exactly when no region has area above 100 and a non-zero `m00`. Otherwise it is the truncated centroid of the first such region. |
| Boxes.ZeroOrNot | utils/tools.py:336-339 | The result is `v` or 0, and never below 0 or below `v`. |
| Boxes.ZeroOrNotIdempotent | utils/tools.py:336-339 | Clamping twice is clamping once. |
| Boxes.ExpandCoordinates | utils/tools.py:342-348 | The top-left corner moves out by `N` and is clamped at 0. The bottom-right corner moves out by `N`, unclamped. |
| Boxes.ExpandContains | utils/tools.py:342-348 | For `N >= 0` and a box inside the image, the expanded box contains the original box. |
| Boxes.ExpandCompose | utils/tools.py:342-348 | For non-negative margins, expanding by `m` and then by `n` is expanding by `m + n`. |
| Boxes.ExpandByZero | utils/tools.py:342-348 | Expanding a box inside the image by 0 leaves it unchanged. |
| Users.Present | utils/tools.py:87 | The keys listed in `fields` that the record has. |
| Users.Project | utils/tools.py:87 | `{key: d[key] for key in fields if key in d}` has exactly the listed keys the record has. Each maps to the record's value. |
| Users.ProjectOrder | utils/tools.py:87 | With no field listed twice, the projected dict iterates its keys in `fields` order. |
| Users.FilterForbiddenUsers | utils/tools.py:83-87 | One projected record per input record, in input order. Each holds exactly the listed fields the record has, with the record's values. |
| Users.PinMarker | utils/tools.py:97 | Definition: `'pt_pin=' + pin`. Characterised by `Users.FirstMatchSpec`. |
| Users.IsSubstring | utils/tools.py:98 | Definition: Python's `s in value` on strings, some index where `s` occurs. Characterised by `Users.FirstMatchSpec`. |
| Users.FirstMatchIn | utils/tools.py:96-100 | Definition: the inner scan over the user keys. Characterised by `Users.FirstMatchInAt`, `Users.FirstMatchInNone`, `Users.FirstMatchInNoneOnly` and `Users.FirstMatchInFound`. |
| Users.FirstMatch | utils/tools.py:96-100 | Definition: the inner scan over all of `user_datas`. Characterised by `Users.FirstMatchSpec`. |
| Users.FirstMatchInAt | utils/tools.py:96-100 | If key `j` is the first whose `'pt_pin=' + pin` occurs in the record's value, the scan picks key `j`. |
| Users.FirstMatchInNone | utils/tools.py:96-100 | A record whose value contains none of the pin markers is stored under no key. |
| Users.FirstMatchInNoneOnly | utils/tools.py:96-100 | A record stored under no key contains none of the pin markers. |
| Users.FirstMatchInFound | utils/tools.py:96-100 | A picked key is a user key whose pin the record carries, and no earlier key's pin is carried. |
| Users.FirstMatchSpec | utils/tools.py:96-100 | The scan picks nothing iff no user's pin marker occurs in the record's value. Otherwise it picks the first such user, in `user_datas` iteration order. |
| Users.StoreAll | utils/tools.py:95-100 | Storing records one after another under their keys yields a well-formed dict. |
| Users.StoreAllKeys | utils/tools.py:95-100 | A key is stored iff some record is assigned to it. |
| Users.StoreAllStep | utils/tools.py:99 | Proof step. Storing one more record either binds its key to it or leaves every other key as the earlier records left it. |
| Users.StoreAllLastWins | utils/tools.py:99 | The last record assigned to a key is the value stored under it; later assignments overwrite earlier ones. |
| Users.StoreAllFrom | utils/tools.py:99 | The value under every stored key is a record that was assigned to that key. |
| Users.ForbiddenUsers | utils/tools.py:90-101 | Definition: every cookie record stored in turn under its first match. Characterised by the three lemmas below. |
| Users.ForbiddenUsersKeys | utils/tools.py:90-101 | A user key is in the result iff some cookie record's first match is that key. |
| Users.ForbiddenUsersLastWins | utils/tools.py:90-101 | The last cookie record whose first match is a key is the record stored under that key. |
| Users.ForbiddenUsersValues | utils/tools.py:90-101 | Every stored key is a key of `user_datas`. The record under it is one of the cookie records and carries that user's pin marker. |
| Users.SlotsSnoc | utils/tools.py:95-100 | Proof step. One more cookie record extends the key list by that record's first match. |
| Users.GetForbiddenUsersDict | utils/tools.py:90-101 | The nested loop, with `break` after the first matching user, builds exactly the dict described by the three lemmas above. |
| Users.NoCookiesNoResult | utils/tools.py:94-101 | With no cookie records the scan reads nothing, so any user dict is accepted, and the result is `{}`. |
| Users.Readable | utils/tools.py:95-98 | Definition: the fields the scan reads are present. Characterised by `Users.NoCookiesNoResult`. |
| Notify.SendCallMethod | utils/tools.py:302-316 | The call is made iff the object has a method of that name. It is that method applied to the URL and the message. Otherwise nothing is called and the result is `None`. |
| Notify.ShouldSend | utils/tools.py:324-328 | Definition: notifications on, and the send type is success (0) with its flag on or fail (1) with its flag on. Characterised by `Notify.SendMsg`. |
| Notify.CallsFor | utils/tools.py:330-332 | Definition: one channel's calls over its URLs. Characterised by `Notify.CallsForSpec`. |
| Notify.PlannedCalls | utils/tools.py:329-332 | Definition: every channel's calls, in `send_info` order. Characterised by `Notify.PlannedCallsMembers` and `Notify.PlannedCallsTo`. |
| Notify.CallsForSpec | utils/tools.py:330-332 | A channel the object lacks makes no calls. A channel it has makes one call per URL, in list order, each with the message. |
| Notify.CallsForSnoc | utils/tools.py:330-332 | Proof step. One more URL adds at most its own call. |
| Notify.PlannedCallsSnoc | utils/tools.py:329-332 | Proof step. One more channel appends its own calls. |
| Notify.PlannedCallsMembers | utils/tools.py:329-332 | A call is made iff its method is a configured channel the object has, its URL is listed for that channel, and its text is the message. |
| Notify.CallsToMembers | utils/tools.py:329-332 | Picking one method's calls out of a trace keeps exactly the trace's calls with that name. |
| Notify.CallsToAppend | utils/tools.py:329-332 | Picking one method's calls distributes over concatenating traces. |
| Notify.CallsToOfCallsFor | utils/tools.py:330-332 | Picking one method's calls out of a channel's calls keeps them all when the channel is that method, and none otherwise. |
| Notify.PlannedCallsTo | utils/tools.py:329-332 | The calls to one channel, picked out of the whole trace, are that channel's URLs in list order. A channel that is not configured gets no calls. |
| Notify.UnknownChannelGetsNoCalls | utils/tools.py:313-316 | With the real `SendApi`, a configured channel that is not one of its five sending methods gets no calls. |
| Notify.NoneFails | utils/tools.py:331 | Definition: none of the positions of a trace, counted in the order the calls are made, is a raising position. |
| Notify.UpToFailure | api/send.py:16-21 | Definition: the calls of a plan that are made when the calls at the positions in `fails` raise (`session.post` failing, or `response.headers['Content-Type']` missing, which depend on when a call is made, not on what it is): up to and including the first raising call. Characterised by the lemmas below. |
| Notify.Cut | utils/tools.py:329-332 | The number of calls made lies between the starting position and the number planned. |
| Notify.CutNone | utils/tools.py:329-332 | Proof step. With no raising position ahead, every planned call is made. |
| Notify.CutAt | utils/tools.py:329-332 | Proof step. The run stops just after the first raising position. |
| Notify.CutFirst | utils/tools.py:329-332 | Proof step. With some raising position ahead, the last call made is at the first one. |
| Notify.UpToFailurePrefix | utils/tools.py:329-332 | When calls can raise, the calls made are a prefix of the planned ones. |
| Notify.UpToFailureAll | utils/tools.py:329-332 | When no planned call raises, every planned call is made. |
| Notify.UpToFailureStopsAtFirst | utils/tools.py:329-332 | When some planned call raises, the last call made is the first one that raises, and every earlier one succeeded. |
| Notify.UpToFailureStops | utils/tools.py:329-332 | A prefix of the plan that ends with its only raising call is exactly the calls made. |
| Notify.SameCallReturnsThenRaises | utils/tools.py:330-331 | A URL listed twice under one channel can return the first time and raise the second: both calls are made and the run raises. |
| Notify.PlannedCallsGrow | utils/tools.py:329-332 | Proof step. The first channels' calls are a prefix of the whole plan. |
| Notify.CallsForGrow | utils/tools.py:330-332 | Proof step. The first URLs' calls are a prefix of the channel's calls. |
| Notify.PlannedUpTo | utils/tools.py:329-332 | Proof step. The plan up to a given URL of a given channel is a prefix of the whole plan. |
| Notify.NoneFailsSnoc | utils/tools.py:331 | Proof step. A call that does not raise keeps a trace free of raising calls. |
| Notify.StopAt | utils/tools.py:331 | Proof step. The first raising call of the loop is where the fan-out ends. |
| Notify.SendAll | utils/tools.py:329-332 | The nested loop makes exactly the calls of the plan up to and including the first one that raises, and reports a raise exactly when some planned call raises. |
| Notify.SendMsg | utils/tools.py:319-333 | With notifications off, or a send type whose flag is off (success 0, fail 1), nothing is sent and nothing raises. Otherwise the trace is every configured channel in `send_info` order, each with its URLs in order, for the channels the object has, cut after the first call that raises; `send_msg` raises exactly when one of the planned calls does. |
| Drag.SlowTargetClosedForm | utils/tools.py:121-123 | The slow phase ends 98% of the way from the start to the target. |
| Drag.FastTarget | utils/tools.py:111 | Definition: 80% of the way from `from_x` to `to_x`. Characterised by `Drag.PhaseEnds`. |
| Drag.SlowTarget | utils/tools.py:122 | Definition: 90% of the rest of the way from the fast target. Characterised by `Drag.SlowTargetClosedForm`. |
| Drag.Waypoint | utils/tools.py:110-137 | Definition: the `i`-th position, phase by phase. Characterised by `Drag.PhaseEnds`, `Drag.WaypointInPhase`, `Drag.WaypointMonotone` and `Drag.HumanLikeMouseMove`. |
| Drag.PhaseEnds | utils/tools.py:110-139 | The 50th move lands on the fast target (80% of the way). The 60th lands on the slow target. The 80th lands exactly on `to_x`. |
| Drag.StepFirst | utils/tools.py:113-137 | Proof step. Before any step, a phase is at its start. |
| Drag.StepNext | utils/tools.py:115-137 | Each `from_x += dx` advances one `n`-th of the phase's distance. |
| Drag.StepLast | utils/tools.py:110-137 | After all `n` steps, a phase is exactly at its end. |
| Drag.StepMonotone | utils/tools.py:113-137 | Moving towards a larger end, later steps land no earlier, and every step lies between the phase's two ends. |
| Drag.WaypointInPhase | utils/tools.py:104-139 | Dragging right, each phase's moves lie between that phase's start and end. |
| Drag.WaypointMonotone | utils/tools.py:104-139 | Dragging right, every move lies between `from_x` and `to_x`, and no move goes back. |
| Drag.HumanLikeMouseMove | utils/tools.py:104-139 | The function issues 80 moves (50 fast, 10 slow, 20 final), all at height `y`. Each phase takes equal steps. The phase ends are 80% of the way, then 90% of the rest, then exactly `to_x`. Dragging right, the positions never decrease and stay within `[from_x, to_x]`. |

## Left out

- The image pipeline is outside the model: reading images, grey-scale
  conversion, blurring, Canny edges, contour finding, polygon approximation,
  bounding boxes, HSV masks, `contourArea` and `moments`. The locators
  receive those results as records.
- The `supported_colors` lookup is left out, along with the `KeyError` an
  unsupported colour raises. `LocateByColor` receives the contours of the
  chosen colour's mask.
- The remaining functions of `utils/tools.py` are left out because they are
  file, image, OCR, HTTP or browser I/O: `get_tmp_dir`,
  `ddddocr_find_files_pic`, `ddddocr_find_bytes_pic`, `get_img_bytes`,
  `get_ocr`, `save_img`, `get_word`, `solve_slider_captcha`,
  `new_solve_slider_captcha`, `rgba2rgb`, `cv2_save_img` and `send_request`.
- `api/send.py`'s payload building and HTTP requests are left out. Its five
  sending method names are `Notify.SendApiMethods`; which calls raise is a
  parameter of `Notify.SendMsg` (`fails`, the raising positions in call
  order).
- All `asyncio.sleep` delays and the random slow-phase duration are left
  out. They do not affect positions.
- `logger.info` calls and `send_call_method`'s return values are left out.
- Drag.HumanLikeMouseMove: positions are exact reals, not IEEE doubles.
  Rounding in the repeated `from_x += dx` is not modelled, so the last move
  lands exactly on `to_x` in the model.
- ShapeLocator.LocateByColor: `m10 / m00` is exact real division, not
  floating point.
- Notify.SendCallMethod: `hasattr` is modelled as membership in a set of
  method names. Attributes that exist but are not awaitable (such as
  `SendApi.name`) and raise there are not modelled.
- Notify.SendMsg: `is_send_msg`, `is_send_success_msg`, `is_send_fail_msg`
  and `send_info` come from the `config` module. They become parameters.
- Users.GetForbiddenUsersDict: a `KeyError` for a missing field is not
  modelled; the model requires the fields instead (`Readable`). The source
  reads `pt_pin` only of the user records each scan reaches before its
  `break`, and `value` only when there is a user. The model asks for `value`
  in that same case, but for `pt_pin` in every user record as soon as there
  is one cookie record. That is stronger than the source when every cookie
  record matches before the last user.
- Users.FilterForbiddenUsers: the `fields=None` default, which makes the
  comprehension raise on any non-empty list, is not modelled.
- Geometry.SortRectangleVertices: requires exactly four vertices. The source
  calls it only for four-corner contours; other lengths raise on unpacking.

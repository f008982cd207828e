# Camera frustum geometry and plotting payloads of `util_vis.py`

`util_vis.py` is the visualisation module of a camera-pose / NeRF training
pipeline. Most of it is glue to plotting and logging libraries. This project
models the part that has structure of its own: building the camera-frustum
geometry, flattening many cameras into one plotting payload, and padding
images with per-image colour borders.

- `CameraMesh`: the constant frustum topology of `get_camera_mesh`. There is a
  six-triangle face table over five vertices: four front-plane corners and the
  apex, index 4, at the camera centre. The ten-point wireframe selects the
  vertices in the order `[0,1,2,3,0,4,1,2,4,3]`. `merge_meshes` flattens the
  vertices row-major and shifts mesh `i`'s face indices by `i * vertex_N`.
  Coordinates have an abstract type `C`. The world-space vertices produced by
  the pose transform are an input.
- `Polyline` and `Sequences`: a sentinel-separated multi-polyline is a flat
  list in which a `None` after each line is a break marker. `Join` builds one
  from a list of lines and `Split` reads it back. A proof shows that `Split`
  recovers the lines.
- `MergeLines`: `merge_wireframes` and `merge_centers` are methods. Their loops
  grow one list per axis, as the source's `+=` does. They are proved equal to
  `Join` of the wireframes' coordinate columns and of the centre pairs. The
  lemmas then give lengths, the position of every entry, the round trip, and
  the shape of the payload `vis_cameras` builds for N cameras.
- `ColorBorder`: `color_border`. The images are a `[B, C, H, W]` array. Each
  iteration allocates a three-channel canvas, fills it with the border colour
  `colors[i, c] / 255`, and writes the image into its interior. A one-channel
  image, or a one-entry colour row, is broadcast over the three channels. The canvases are then stacked
  in order into a `[B, 3, H + 2w, W + 2w]` array.

Where the source raises an exception, the model requires the input that avoids
it. Each such case is listed under "## Left out".

## Model

| member | source | states |
|---|---|---|
| CameraMesh.FaceTable | util_vis.py:164-169 | Six faces, every index below 5; the last four faces use the apex and the first two (the front plane) do not |
| CameraMesh.FaceTableCoversVertices | util_vis.py:164-169 | Every vertex 0..4 belongs to at least one face |
| CameraMesh.Wireframe | util_vis.py:171 | The selection of one camera's five vertices has 10 points, and its point 5 is the last vertex; the full order is stated by WireframeShape |
| CameraMesh.WireframeShape | util_vis.py:171 | The wireframe has 10 points, each a vertex; its first four points are the corners in order, point 4 returns to corner 0, point 5 is the apex, which is the last vertex, and points 6-9 are corners 1 and 2, the apex and corner 3 |
| CameraMesh.WireframeTracesEdges | util_vis.py:171 | Each front-plane edge and each side edge to the apex is a consecutive pair of the wireframe order |
| CameraMesh.GetCameraMesh | util_vis.py:142-172 | One vertex row and one wireframe per camera, each wireframe of 10 points with point 5 the camera's last vertex (the apex); GetCameraMeshShape states each wireframe's full content |
| CameraMesh.GetCameraMeshShape | util_vis.py:164-172 | For each camera: the vertices are returned as given, the faces are the constant table, and wireframe i is camera i's vertices selected in the order [0,1,2,3,0,4,1,2,4,3], so it has 10 points and its point 5 equals `vertices[-1]`, the centre that `vis_cameras` reads at util_vis.py:67 |
| Sequences.Concat | util_vis.py:184-185 | The concatenation has the sum of the block lengths |
| Sequences.ConcatUniformAt | util_vis.py:184-185 | Blocks of a common length L concatenate row-major: length N*L, and element k of block i at i*L+k |
| CameraMesh.MergeMeshes | util_vis.py:182-186 | mesh_N*vertex_N merged vertices and mesh_N*\|faces\| merged faces; each entry is given by MergeMeshesVertexAt and MergeMeshesFaceAt, and the index bound by MergeMeshesInRange |
| CameraMesh.MergeMeshesVertexAt | util_vis.py:183-185 | The merged vertices number mesh_N*vertex_N, and merged vertex i*vertex_N+k is vertex k of mesh i |
| CameraMesh.MergeMeshesFaceAt | util_vis.py:182-184 | The merged faces number mesh_N*\|faces\|, and merged face i*\|faces\|+f is face f with i*vertex_N added to each index |
| CameraMesh.MergeMeshesInRange | util_vis.py:183-184 | If every input index is below vertex_N, every merged index is below the number of merged vertices |
| Polyline.JoinAppend | util_vis.py:178-180 | Appending one line to the input appends its points and one break marker to the trace |
| Polyline.JoinLength | util_vis.py:175-181 | The trace has Σ(len(line)+1) entries |
| Polyline.JoinUniformAt | util_vis.py:175-181 | For lines of common length L, entry i*(L+1)+L is `None`, and entry i*(L+1)+k with k<L is `Some` of point k of line i |
| Polyline.SplitJoin | util_vis.py:175-181 | Splitting the trace at its break markers recovers every line, in input order |
| MergeLines.MergeWireframes | util_vis.py:175-181 | Each axis list is the trace of the wireframes' coordinate columns on that axis |
| MergeLines.WireframeTraceRoundTrip | util_vis.py:175-181 | Each axis list splits back into the wireframes' coordinate columns; its length is Σ(len(w)+1) |
| MergeLines.WireframeTraceAt | util_vis.py:175-181 | For N wireframes of length L, each axis list has N*(L+1) entries: `None` at i*(L+1)+L, and the coordinate of point k of wireframe i at i*(L+1)+k |
| MergeLines.PairStep | util_vis.py:190-192 | One iteration's `[c1, c2, None]` is exactly the trace of the next centre pair |
| MergeLines.CenterTraceLayout | util_vis.py:187-193 | The trace of the centre pairs has 3*min(\|c1s\|,\|c2s\|) entries: c1[i] at 3i, c2[i] at 3i+1, `None` at 3i+2 |
| MergeLines.MergeCenters | util_vis.py:187-193 | Each axis list is the trace of the pairs that `zip` forms, laid out as entries 3i, 3i+1, 3i+2 = c1[i], c2[i], `None` |
| MergeLines.CameraPayload | util_vis.py:66-93 | For N cameras: 5N merged vertices; 6N merged faces, all indices below 5N; 11N entries per wireframe axis list, with `None` at 11i+10 and the camera centre at 11i+5 |
| ColorBorder.PadImage | util_vis.py:52-53 | A fresh 3-channel canvas of size (H+2w)x(W+2w): interior pixel (c,y,x) is image pixel (c,y-w,x-w), with a one-channel image broadcast; every other pixel of channel c is colors[i,c]/255, with a one-entry colour row broadcast |
| ColorBorder.ColorBorder | util_vis.py:49-56 | One padded image per input image, in order, stacked into a fresh [B,3,H+2w,W+2w] array, with the same interior and border contents as PadImage, including the broadcast of a one-channel image or a one-entry colour row |

## Left out

- CameraMesh.MergeMeshes: requires at least one mesh, because `torch.cat` of an empty list raises (util_vis.py:184); the error is not modelled.
- ColorBorder.ColorBorder: requires at least one image, because `torch.stack` of an empty list raises (util_vis.py:55); the error is not modelled.
- ColorBorder.ColorBorder: requires a positive width, because with width 0 the slice `0:-0` is empty and the copy fails on shape unless the image is at most 1x1 (util_vis.py:53). In that case the source returns a canvas that is all border; neither case is modelled.
- ColorBorder.ColorBorder: requires 1 or 3 image channels and colour rows of 1 or 3 entries, because other sizes fail to broadcast (util_vis.py:52-53); the error is not modelled.
- ColorBorder.ColorBorder: requires at least as many colour rows as images, because `colors[i]` raises IndexError otherwise (util_vis.py:52); the error is not modelled.
- ColorBorder.ColorBorder: the default width of 3 (util_vis.py:49) is not modelled, and the caller always passes the width. The width is non-negative by type, so a negative width, which the source accepts as an argument, is not modelled.
- ColorBorder.PadImage: same width, colour-row count, channel and colour-row requirements as `ColorBorder.ColorBorder`.
- `camera.cam2world` (util_vis.py:170): the pose transform is rigid-body floating-point maths in a module that is not part of this model. The world-space vertices it returns are an input.
- The base frustum coordinates scaled by `depth` (util_vis.py:159-163): floating-point values with no structure beyond "five rows". The earlier vertex and face tables at util_vis.py:144-156 are overwritten before use, so they are not modelled.
- `preprocess_vis_image`, `dump_images`, `get_heatmap`, `tb_image` (util_vis.py:17-47): floating-point normalisation, a colormap library, an 8-bit cast, file writes and TensorBoard logging. `dump_images` also passes a `masks=` keyword that `preprocess_vis_image` does not accept.
- `vis_cameras` (util_vis.py:59-140): it only marshals the merged arrays into a scene payload and sends it over the network. The shape of that payload is stated by `MergeLines.CameraPayload`.
- The `plot_save_*` routines and `setup_3D_plot` (util_vis.py:195-526): matplotlib drawing, floating-point axis bounds and `savefig` output.
- `merge_centers` over fewer than two centre sets: `vis_cameras` passes `centers[:2]`. One non-empty set makes the tuple unpacking raise; an empty set, or no set at all, gives empty lists. The model takes the two sets as two arguments.
- Coordinates and pixel values: the source's `float(...)` conversions and 32-bit float arithmetic are not modelled. Coordinates are abstract and pixels are exact reals, so `colors / 255.0` is exact division.
- Tensors: the source works on torch tensors, and the model on Dafny arrays and sequences, so it does not capture tensor views, devices or dtypes.

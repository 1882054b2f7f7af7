# docktail transform model

docktail is a sidecar that polls the Docker socket at a fixed interval. It turns the
running containers into a promtail file-based service-discovery target list and
writes that list to a JSON file. This project models the one piece of logic in it:
the transform from the decoded container list to the list of targets that is written.

The transform has three steps, one per Dafny function in module `Labels` (labels.dfy):

- `Extract`: a container's raw label map is decoded into the six-field
  `ContainerLabels` record. The record keeps `app`, `application`, `component`,
  `com.docker.stack.namespace`, `com.docker.swarm.service.name` and `type`. A missing
  key becomes `""`, and every other key is dropped.
- `Convert`: the struct conversion `TargetLabels(c.Labels)`, field for field.
- `Encode`: how a `TargetLabels` record is written. Each field goes under its output
  key, and an empty field is left out (`omitempty`). Two output keys differ from the
  input keys: the stack namespace becomes `stack` and the swarm service name becomes
  `service`.

The key correspondence is a single table, `RawKey` and `OutKey` over the `Field`
enumeration, and the records are read through it with `Get`. `OutputLabels` composes
the three steps. The lemmas about it state what happens to any raw label map:

- recognised non-empty labels are carried over unchanged;
- missing or empty ones are omitted;
- nothing else is ever written;
- unrecognised keys have no effect.

`Read` reads a written label object back by exact key and is the partner of
`Encode`: the two are proved mutually inverse on sparse label objects.

Module `Targets` (targets.dfy) models the assembly loop of `containersToTargets` as
the method `ContainersToTargets`. The loop starts from an empty list and appends
one target per container. `TargetFile` is the whole transform of one refresh, from
the reported containers to the entries of the file. `RefreshTwice` shows that two
refreshes from the same container list write the same file.

The model follows main.go. The code does not filter out any container, copy image or
name fields, or strip a leading `/`, and it recognises only the six keys above; the
model does none of these either.

One more point follows from the code. The `Labels` object of a target is always
written, as `{}` when the container has none of the recognised labels. Its
`omitempty` tag has no effect on a struct-typed field in Go's encoding/json.

## Model

| member | source | states |
|---|---|---|
| `Labels.KeyTables` | main.go:27-44 | neither key table maps two fields to one key, and a field's output key differs from its raw key exactly for the stack namespace and the swarm service name |
| `Labels.Extract` | main.go:26-34 | each of the six fields holds the value of its raw key, or "" when that key is missing |
| `Labels.ExtractIgnoresUnrecognised` | main.go:26-34 | adding or removing a raw label outside the six recognised keys leaves the decoded record unchanged |
| `Labels.Convert` | main.go:101 | the converted record holds every field of the container record unchanged |
| `Labels.ConvertInjective` | main.go:101 | two container records with the same conversion are equal, so the conversion loses nothing |
| `Labels.EncodeFieldsAt` | main.go:37-44 | when a list of fields is written, a listed field has an entry under its output key exactly when it is non-empty, and that entry holds its value |
| `Labels.EncodeFieldsFrom` | main.go:37-44 | every entry written for a list of fields is non-empty and sits under the output key of a listed field |
| `Labels.Encode` | main.go:36-44 | the written label object has an entry under a field's output key exactly when the field is non-empty, that entry holds the field's value, no other key appears and no value is empty |
| `Labels.Read` | main.go:36-44 | reading a label object back gives each field the value under its output key, or "" when the key is absent |
| `Labels.ReadEncode` | main.go:36-44 | reading back a written label object yields the record that was written, so omitting empty labels loses nothing |
| `Labels.EncodeRead` | main.go:36-44 | every label object that has only output keys and no empty values is exactly the encoding of the record read from it |
| `Labels.OutputCarriesRecognised` | main.go:27-44 | a recognised raw label with a non-empty value appears unchanged under its output key, with the stack namespace under `stack` and the swarm service name under `service` |
| `Labels.OutputOmitsAbsent` | main.go:38-43 | a recognised raw label that is missing or empty has no entry in the written label object |
| `Labels.OutputFromRecognisedOnly` | main.go:27-44 | every written label comes from a recognised raw label of the same container, with the same value, and is never empty |
| `Labels.OutputIgnoresUnrecognised` | main.go:27-44 | adding or removing a raw label outside the six recognised keys leaves the written label object unchanged |
| `Labels.OutputEmptyWithoutRecognised` | main.go:38-43 | a container with none of the recognised raw keys gets an empty label object |
| `Targets.ContainersToTargets` | main.go:97-103 | there is one target per container, in input order; target i has the id list [ID of container i] and the converted labels of container i; an empty container list gives an empty target list |
| `Targets.Decode` | main.go:20-24 | a decoded container keeps the reported Id, and each of its six label fields holds the value of its raw key, or "" when that key is missing |
| `Targets.Written` | main.go:14-18 | a written target keeps its id list, and its label object, present even when empty, holds exactly the non-empty labels under their output keys |
| `Targets.TargetFile` | main.go:91-105 | the written file has one entry per reported container, in order; entry i lists exactly that container's Id, and its label object is the one the container's raw labels yield; every entry carries a label object, an empty one included, because `omitempty` does not drop a struct-typed field |
| `Targets.RefreshTwice` | main.go:56-59 | two refreshes from the same container list produce identical target files |

## Left out

- The ticker loop and flag parsing (main.go:46-62) are scheduling and configuration. `RefreshTwice` stands in for repeated ticks.
- The Unix-socket HTTP client, the GET request and reading the response body (main.go:66-89) are network I/O.
- Writing the file and its overwrite semantics (main.go:111-115) are file-system I/O.
- Byte-level JSON is library behaviour and is not modelled. This covers parsing, indentation, escaping and key order in the output. It also covers encoding/json's case-insensitive field matching when decoding. Decoding is modelled as exact-key lookup in a string map, and the written label object as a string map.
- The error branches at main.go:78-95 and 106-109 print a message and return before anything is written. The modelled transform is total and starts from an already decoded list.
- The write-error branch (main.go:111-115) is left out with the write itself. The file is truncated before it is written, so a failed write may leave an empty or partial file.
- A reported container whose `Labels` is JSON `null` decodes like one with an empty map. The model has no separate null case.

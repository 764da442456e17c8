/** Records of orchestrator/deps/content_snapshot.py. */
module SnapshotTypes {
  import opened Text
  import opened Utf8

  const MAX_INJECTION_BYTES: nat := 262144
  const TRUNCATION_SUMMARY_RESERVE_BYTES: nat := 512
  const MAX_INSTRUCTION_BYTES: nat := 261630

  datatype Role = Required | Optional

  /** One evaluated authored dependency row; `target` is absent for a row that resolved to nothing. */
  datatype Row = Row(
    role: Role,
    authoredIndex: nat,
    bindingRef: string,
    evaluatedRelpath: string,
    target: Option<string>)

  /** Canonical content plus the authored rows that alias it. */
  datatype Group = Group(
    target: string,
    role: Role,
    rows: seq<Row>,
    bytes: seq<Byte>,
    totalBytes: nat)

  datatype Snapshot = Snapshot(
    authoredRows: seq<Row>,
    absentRows: seq<Row>,
    groups: seq<Group>,
    retainedBytes: nat)

  datatype Status = Complete | Truncated | Omitted

  datatype Truncation = Truncation(target: string, status: Status, shownBytes: nat, totalBytes: nat)

  datatype Rendered = Rendered(
    block: seq<Byte>,
    preTruncationBytes: nat,
    wasTruncated: bool,
    summary: seq<Byte>,
    truncations: seq<Truncation>)

  datatype RenderError =
    | InstructionExceedsLimit
    | SummaryExceedsReserve
    | NoFeasibleRender
    | BlockExceedsLimit

  datatype Result<+T, +E> = Ok(value: T) | Err(error: E)

  /** The texts the renderer puts around content: section header, truncation marker, summary. */
  datatype Layout = Layout(
    header: (string, nat, nat) -> seq<Byte>,
    marker: seq<Byte>,
    summarize: seq<Truncation> -> seq<Byte>)

  /** A header announcing a longer prefix is never shorter, and no header is empty. */
  ghost predicate Orderly(lay: Layout) {
    && (forall target, shown, total :: |lay.header(target, shown, total)| > 0)
    && (forall target, m, n, total :: m <= n ==> |lay.header(target, m, total)| <= |lay.header(target, n, total)|)
  }

  /** What every group constructor guarantees and the renderer relies on. */
  predicate Renderable(g: Group) {
    Decodes(g.bytes) && |g.bytes| <= g.totalBytes
  }

  predicate AllRenderable(groups: seq<Group>) {
    forall i :: 0 <= i < |groups| ==> Renderable(groups[i])
  }
}

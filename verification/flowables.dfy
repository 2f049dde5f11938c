/**
 * The ReportLab story both PDF converters build: a sequence of flowables,
 * each named by the style it is drawn in. Fonts, colours and page geometry
 * live in the style sheet and are not modelled.
 */
module Flowables {

  datatype Flowable =
    | Paragraph(text: string, style: string)
    | Preformatted(text: string, style: string)
    | Spacer(height: nat)                 // always one point wide in the source
    | Table(rows: seq<seq<string>>)
}
